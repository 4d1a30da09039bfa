/** The IDX (MNIST) helpers of the Swan library: the 32-bit byte swap used to
    decode big-endian header words, the magic-number acceptance of label and
    image files, and the ASCII-art image renderer. */
module SwParse {

  /** An unsigned 8-bit pixel value (`uint8_t`), used arithmetically. */
  type Byte = x: int | 0 <= x < 256

  const INT32_MAX: int := 0x7FFF_FFFF

  datatype ParseError = LabelsCorrupted | ImagesCorrupted | BufferOverflow

  datatype Result<T> = Success(value: T) | Failure(error: ParseError)

  // ---------------------------------------------------------------------------
  // reverse32 and header decoding
  // ---------------------------------------------------------------------------

  /** Four consecutive bytes, in file order (or a word's bytes, most
      significant first). */
  datatype Quad = Quad(b0: bv8, b1: bv8, b2: bv8, b3: bv8) {
    /** The same bytes in the opposite order. */
    function Flip(): Quad {
      Quad(b3, b2, b1, b0)
    }
  }

  /** The least significant byte of a word. */
  function Low(w: bv32): bv8 {
    (w & 0xFF) as bv8
  }

  /** The four bytes of a word, most significant first. */
  function Unpack(w: bv32): Quad {
    Quad(Low(w >> 24), Low(w >> 16), Low(w >> 8), Low(w))
  }

  /** The value of four bytes read most-significant first, as the IDX format
      stores its header integers. */
  function BigEndianWord(q: Quad): (r: bv32)
    ensures Unpack(r) == q
  {
    ((q.b0 as bv32) << 24) | ((q.b1 as bv32) << 16) | ((q.b2 as bv32) << 8) | (q.b3 as bv32)
  }

  /** A word is its four bytes put back together. */
  lemma PackUnpack(w: bv32)
    ensures BigEndianWord(Unpack(w)) == w
  {
  }

  /** Swaps the byte order of a 32-bit word: byte `i` of the result is byte
      `3 - i` of the input. */
  function Reverse32(v: bv32): (r: bv32)
    ensures Unpack(r) == Unpack(v).Flip()
  {
    ((v & 0x0000_00FF) << 24) | ((v & 0x0000_FF00) << 8)
      | ((v & 0x00FF_0000) >> 8) | ((v & 0xFF00_0000) >> 24)
  }

  /** Swapping twice gives the original word back. */
  lemma Reverse32Involution(v: bv32)
    ensures Reverse32(Reverse32(v)) == v
  {
    PackUnpack(v);
    PackUnpack(Reverse32(Reverse32(v)));
  }

  /** Byte order of the machine that executes `fread` on a `uint32_t`. */
  datatype Endian = Little | Big

  /** The word `fread` stores when it reads the four file bytes `q` into a
      `uint32_t` on a host of byte order `e`. */
  function LoadHost(e: Endian, q: Quad): bv32 {
    match e
    case Little => BigEndianWord(q.Flip())
    case Big => BigEndianWord(q)
  }

  /** `freadReverse32`: a header word read from the file and byte-swapped. */
  function ReadHeaderWord(e: Endian, q: Quad): bv32 {
    Reverse32(LoadHost(e, q))
  }

  /** On a little-endian host the swap recovers the big-endian value stored in
      the file; on a big-endian host it yields the little-endian reading. */
  lemma ReadHeaderWordValue(e: Endian, q: Quad)
    ensures e == Little ==> ReadHeaderWord(e, q) == BigEndianWord(q)
    ensures e == Big ==> ReadHeaderWord(e, q) == BigEndianWord(q.Flip())
  {
    PackUnpack(ReadHeaderWord(e, q));
  }

  // ---------------------------------------------------------------------------
  // Magic numbers
  // ---------------------------------------------------------------------------

  /** The IDX magic of a label file (unsigned bytes, one dimension). */
  const LabelMagic: bv32 := 0x0000_0801
  /** The IDX magic of an image file (unsigned bytes, three dimensions). */
  const ImageMagic: bv32 := 0x0000_0803

  /** The decoded label-file magic is accepted in either byte order. */
  predicate LabelMagicAccepted(m: bv32) {
    m == 2049 || m == 17301504
  }

  /** The decoded image-file magic is accepted in either byte order. */
  predicate ImageMagicAccepted(m: bv32) {
    m == 2051 || m == 50855936
  }

  /** The two accepted label values are the magic and its byte swap, so the
      accepted set is closed under `Reverse32`. */
  lemma LabelMagicSwapClosed(m: bv32)
    ensures Reverse32(LabelMagic) == 17301504
    ensures LabelMagicAccepted(m) <==> (m == LabelMagic || m == Reverse32(LabelMagic))
    ensures LabelMagicAccepted(m) <==> LabelMagicAccepted(Reverse32(m))
  {
    Reverse32Involution(m);
  }

  /** The same for the image magic. */
  lemma ImageMagicSwapClosed(m: bv32)
    ensures Reverse32(ImageMagic) == 50855936
    ensures ImageMagicAccepted(m) <==> (m == ImageMagic || m == Reverse32(ImageMagic))
    ensures ImageMagicAccepted(m) <==> ImageMagicAccepted(Reverse32(m))
  {
    Reverse32Involution(m);
  }

  /** The magic check of a label file, given the file's first four bytes:
      the decoded magic on success, `LabelsCorrupted` (where the library
      aborts) otherwise. Accepted exactly when the bytes spell the magic in
      either byte order, whatever the host's byte order. */
  function CheckLabelHeader(e: Endian, header: Quad): (r: Result<bv32>)
    ensures r.Success? <==> (header == Quad(0, 0, 8, 1) || header == Quad(1, 8, 0, 0))
    ensures r.Failure? ==> r.error == LabelsCorrupted
    ensures e == Little && header == Quad(0, 0, 8, 1) ==> r == Success(LabelMagic)
  {
    var m := ReadHeaderWord(e, header);
    MagicBytes(e, header);
    if LabelMagicAccepted(m) then Success(m) else Failure(LabelsCorrupted)
  }

  /** The magic check of an image file, as `CheckLabelHeader`. */
  function CheckImageHeader(e: Endian, header: Quad): (r: Result<bv32>)
    ensures r.Success? <==> (header == Quad(0, 0, 8, 3) || header == Quad(3, 8, 0, 0))
    ensures r.Failure? ==> r.error == ImagesCorrupted
    ensures e == Little && header == Quad(0, 0, 8, 3) ==> r == Success(ImageMagic)
  {
    var m := ReadHeaderWord(e, header);
    MagicBytes(e, header);
    if ImageMagicAccepted(m) then Success(m) else Failure(ImagesCorrupted)
  }

  /** Which file bytes decode to each accepted magic value. */
  lemma MagicBytes(e: Endian, q: Quad)
    ensures LabelMagicAccepted(ReadHeaderWord(e, q)) <==> (q == Quad(0, 0, 8, 1) || q == Quad(1, 8, 0, 0))
    ensures ImageMagicAccepted(ReadHeaderWord(e, q)) <==> (q == Quad(0, 0, 8, 3) || q == Quad(3, 8, 0, 0))
    ensures e == Little && q == Quad(0, 0, 8, 1) ==> ReadHeaderWord(e, q) == LabelMagic
    ensures e == Little && q == Quad(0, 0, 8, 3) ==> ReadHeaderWord(e, q) == ImageMagic
  {
    ReadHeaderWordValue(e, q);
    var m := ReadHeaderWord(e, q);
    var o := if e == Little then q else q.Flip();
    assert m == BigEndianWord(o);
    assert 2049 == BigEndianWord(Quad(0, 0, 8, 1)) && 17301504 == BigEndianWord(Quad(1, 8, 0, 0));
    assert 2051 == BigEndianWord(Quad(0, 0, 8, 3)) && 50855936 == BigEndianWord(Quad(3, 8, 0, 0));
  }

  // ---------------------------------------------------------------------------
  // Image rendering
  // ---------------------------------------------------------------------------

  /** The ten brightness characters, darkest first. */
  const LightValues: seq<char> := [' ', '.', ':', '-', '=', '+', '*', '#', '%', '@']

  /** `round(p / 255 * 10)`, computed on integers. */
  function Bucket(p: Byte): (r: nat)
    ensures r <= 10
  {
    (20 * p + 255) / 510
  }

  /** The bucket is the nearest integer to 10p/255, and there is never a tie,
      so the rounding mode does not matter. */
  lemma BucketNearest(p: Byte)
    ensures (Bucket(p) as real) - 0.5 < (p as real) * 10.0 / 255.0 < (Bucket(p) as real) + 0.5
  {
    var r := Bucket(p);
    assert 510 * r <= 20 * p + 255 < 510 * r + 510;
    assert 20 * p + 255 != 510 * r by {
      assert (20 * p + 255) % 2 == 1;
    }
  }

  /** The brightness level of a pixel: its bucket, capped at the last table
      entry. */
  function Lightness(p: Byte): (r: nat)
    ensures r < |LightValues|
  {
    var b := Bucket(p);
    if b > 9 then 9 else b
  }

  /** The level is the bucket except that bucket 10 is capped to 9; black is
      level 0 and white level 9. */
  lemma LightnessCap(p: Byte)
    ensures Lightness(p) == Bucket(p) || (Bucket(p) == 10 && Lightness(p) == 9)
    ensures p == 0 ==> Lightness(p) == 0
    ensures p == 255 ==> Lightness(p) == 9
  {
  }

  /** Brighter pixels never get a darker character. */
  lemma LightnessMonotone(p: Byte, q: Byte)
    requires p <= q
    ensures Lightness(p) <= Lightness(q)
  {
    BucketNearest(p);
    BucketNearest(q);
  }

  /** The character a pixel renders as. */
  function LightChar(p: Byte): char {
    LightValues[Lightness(p)]
  }

  /** Every pixel character comes from the brightness table; black renders
      as a space and white as '@'. */
  lemma LightCharTable(p: Byte)
    ensures LightChar(p) in LightValues
    ensures p == 0 ==> LightChar(p) == ' '
    ensures p == 255 ==> LightChar(p) == '@'
  {
  }

  /** The text of one row of pixels: one brightness character per pixel. */
  function RowText(cells: seq<Byte>): (line: seq<char>)
    ensures |line| == |cells|
  {
    seq(|cells|, j requires 0 <= j < |cells| => LightChar(cells[j]))
  }

  /** `a * b` by repeated addition. The rendering proofs reason about row
      offsets through this definition, which keeps them linear; `TimesIsMul`
      connects it to multiplication. */
  function Times(a: nat, b: nat): nat
    decreases a
  {
    if a == 0 then 0 else Times(a - 1, b) + b
  }

  lemma {:induction false} TimesIsMul(a: nat, b: nat)
    ensures Times(a, b) == a * b
    decreases a
  {
    if a > 0 {
      TimesIsMul(a - 1, b);
      assert (a - 1) * b + b == a * b;
    }
  }

  lemma {:induction false} TimesMonotone(a: nat, c: nat, b: nat)
    requires a <= c
    ensures Times(a, b) <= Times(c, b)
    decreases c
  {
    if a < c {
      TimesMonotone(a, c - 1, b);
    }
  }

  /** One more column adds one more pixel per row. */
  lemma {:induction false} TimesSucc(a: nat, b: nat)
    ensures Times(a, b + 1) == Times(a, b) + a
    decreases a
  {
    if a > 0 {
      TimesSucc(a - 1, b);
    }
  }

  /** The reference rendering of the first `rows` rows of `columns` pixels,
      stored row after row: each row's characters followed by a newline. */
  function Render(pixels: seq<Byte>, rows: nat, columns: nat): (text: seq<char>)
    requires Times(rows, columns) <= |pixels|
    decreases rows
  {
    if rows == 0 then []
    else Render(pixels, rows - 1, columns) + RowText(pixels[Times(rows - 1, columns) .. Times(rows, columns)]) + ['\n']
  }

  lemma {:induction false} RenderLength(pixels: seq<Byte>, rows: nat, columns: nat)
    requires Times(rows, columns) <= |pixels|
    ensures |Render(pixels, rows, columns)| == Times(rows, columns + 1)
    decreases rows
  {
    if rows > 0 {
      RenderLength(pixels, rows - 1, columns);
    }
  }

  /** Layout of the rendering of `rows` rows of `columns` pixels: it has
      `rows * (columns + 1)` characters, and row `i` occupies the
      `columns + 1` characters from `i * (columns + 1)` on: the characters
      of pixels `i * columns ..` in order, then a newline. */
  lemma RenderAt(pixels: seq<Byte>, rows: nat, columns: nat, i: nat, j: nat)
    requires rows * columns <= |pixels|
    requires i < rows && j <= columns
    ensures Times(rows, columns) == rows * columns
    ensures |Render(pixels, rows, columns)| == rows * (columns + 1)
    ensures i * (columns + 1) + columns < rows * (columns + 1)
    ensures i * columns + columns <= |pixels|
    ensures i * (columns + 1) + j < |Render(pixels, rows, columns)|
    ensures j < columns ==> i * columns + j < |pixels|
    ensures Render(pixels, rows, columns)[i * (columns + 1) + j]
              == if j < columns then LightChar(pixels[i * columns + j]) else '\n'
  {
    RowOffsets(rows, columns, i);
    RenderLength(pixels, rows, columns);
    RenderCell(pixels, rows, columns, i, j);
  }

  /** Row `i` of `rows` starts at offset `i * width` and ends within
      `rows * width`, for the pixel width and the text width of a row. */
  lemma RowOffsets(rows: nat, columns: nat, i: nat)
    requires i < rows
    ensures Times(rows, columns) == rows * columns && Times(i, columns) == i * columns
    ensures Times(rows, columns + 1) == rows * (columns + 1) && Times(i, columns + 1) == i * (columns + 1)
    ensures i * columns + columns <= rows * columns
    ensures i * (columns + 1) + columns < rows * (columns + 1)
  {
    TimesIsMul(rows, columns);
    TimesIsMul(rows, columns + 1);
    TimesIsMul(i, columns);
    TimesIsMul(i, columns + 1);
    TimesMonotone(i + 1, rows, columns);
    TimesMonotone(i + 1, rows, columns + 1);
  }

  /** The character at column `j` of row `i`, by induction on the number of
      rows: a row before the last is read from the shorter rendering. */
  lemma {:induction false} RenderCell(pixels: seq<Byte>, rows: nat, columns: nat, i: nat, j: nat)
    requires Times(rows, columns) <= |pixels|
    requires i < rows && j <= columns
    ensures Times(i, columns + 1) + j < |Render(pixels, rows, columns)|
    ensures j < columns ==> Times(i, columns) + j < |pixels|
    ensures Render(pixels, rows, columns)[Times(i, columns + 1) + j]
              == if j < columns then LightChar(pixels[Times(i, columns) + j]) else '\n'
    decreases rows
  {
    var fewer := rows - 1;
    if i < fewer {
      RenderCell(pixels, fewer, columns, i, j);
      RenderEarlierRow(pixels, rows, columns, i, j);
    } else {
      RenderLastRow(pixels, rows, columns, i, j);
    }
  }

  /** A row before the last reads the same in the rendering of `rows` rows
      as in that of `rows - 1` rows. */
  lemma RenderEarlierRow(pixels: seq<Byte>, rows: nat, columns: nat, i: nat, j: nat)
    requires Times(rows, columns) <= |pixels|
    requires i + 1 < rows && j <= columns
    requires Times(i, columns + 1) + j < |Render(pixels, rows - 1, columns)|
    requires j < columns ==> Times(i, columns) + j < |pixels|
    requires Render(pixels, rows - 1, columns)[Times(i, columns + 1) + j]
               == if j < columns then LightChar(pixels[Times(i, columns) + j]) else '\n'
    ensures Times(i, columns + 1) + j < |Render(pixels, rows, columns)|
    ensures Render(pixels, rows, columns)[Times(i, columns + 1) + j]
              == if j < columns then LightChar(pixels[Times(i, columns) + j]) else '\n'
  {
  }

  /** The last row of a rendering: the row's characters, then a newline. */
  lemma RenderLastRow(pixels: seq<Byte>, rows: nat, columns: nat, i: nat, j: nat)
    requires Times(rows, columns) <= |pixels| && i + 1 == rows && j <= columns
    ensures Times(i, columns + 1) + j < |Render(pixels, rows, columns)|
    ensures j < columns ==> Times(i, columns) + j < |pixels|
    ensures Render(pixels, rows, columns)[Times(i, columns + 1) + j]
              == if j < columns then LightChar(pixels[Times(i, columns) + j]) else '\n'
  {
    RenderLength(pixels, i, columns);
    var row := RowText(pixels[Times(i, columns) .. Times(rows, columns)]);
    assert Render(pixels, rows, columns) == Render(pixels, i, columns) + row + ['\n'];
  }

  /** Every character of the rendering is a brightness character or a
      newline. */
  lemma {:induction false} RenderAlphabet(pixels: seq<Byte>, rows: nat, columns: nat)
    requires Times(rows, columns) <= |pixels|
    ensures forall k :: 0 <= k < |Render(pixels, rows, columns)| ==>
              Render(pixels, rows, columns)[k] in LightValues || Render(pixels, rows, columns)[k] == '\n'
    decreases rows
  {
    if rows > 0 {
      var cells := pixels[Times(rows - 1, columns) .. Times(rows, columns)];
      var row := RowText(cells);
      var before := Render(pixels, rows - 1, columns);
      RenderAlphabet(pixels, rows - 1, columns);
      var text := Render(pixels, rows, columns);
      assert text == before + row + ['\n'];
      forall k | 0 <= k < |text|
        ensures text[k] in LightValues || text[k] == '\n'
      {
        if k < |before| {
          assert text[k] == before[k];
        } else if k < |before| + |row| {
          assert text[k] == row[k - |before|] == LightChar(cells[k - |before|]);
          LightCharTable(cells[k - |before|]);
        }
      }
    }
  }

  /** A C `int`. */
  predicate IsInt32(x: int) {
    -0x8000_0000 <= x <= INT32_MAX
  }

  /** C's conversion of an `int` to `uint32_t`: reduction modulo 2^32, so a
      negative value becomes a large one. */
  function ToUint32(x: int): (r: nat)
    requires IsInt32(x)
    ensures r < 0x1_0000_0000 && (r - x) % 0x1_0000_0000 == 0
    ensures 0 <= x ==> r == x
  {
    if x < 0 then x + 0x1_0000_0000 else x
  }

  /** The size of the stack buffer `SW_printMNISTImage` allocates:
      `rows*columns+rows+8` computed in `int` and stored in a `uint32_t`. */
  function BufferLength(rows: int, columns: int): nat
    requires IsInt32(rows * columns + rows + 8)
  {
    ToUint32(rows * columns + rows + 8)
  }

  /** `SW_printMNISTImage`: renders the image into a buffer of
      `BufferLength(rows, columns)` characters and terminates the text with
      NUL. Both loops count in `uint32_t`, so the dimensions are converted
      first. A write index that reaches the buffer length aborts with
      `BufferOverflow`; that happens exactly when the rendering and its NUL
      do not fit. The buffer is modelled by the text written so far, whose
      length is the write index.

      The preconditions exclude what C leaves undefined: a signed overflow
      while computing the buffer size, a zero-length buffer, and a pixel read
      past the end of the image (pixels are read until the rows run out or
      the abort fires, whichever comes first). */
  method PrintImage(pixels: seq<Byte>, rows: int, columns: int) returns (r: Result<seq<char>>)
    requires IsInt32(rows) && IsInt32(columns)
    requires IsInt32(rows * columns) && IsInt32(rows * columns + rows) && IsInt32(rows * columns + rows + 8)
    requires BufferLength(rows, columns) > 0
    requires ToUint32(rows) * ToUint32(columns) <= |pixels| || BufferLength(rows, columns) <= |pixels|
    ensures r.Success? <==> ToUint32(rows) * (ToUint32(columns) + 1) < BufferLength(rows, columns)
    ensures r.Success? ==>
              && Times(ToUint32(rows), ToUint32(columns)) <= |pixels|
              && r.value == Render(pixels, ToUint32(rows), ToUint32(columns)) + ['\0']
              && |r.value| <= BufferLength(rows, columns)
    ensures r.Failure? ==> r.error == BufferOverflow
  {
    var rowCount := ToUint32(rows);
    var columnCount := ToUint32(columns);
    TimesIsMul(rowCount, columnCount);
    TimesIsMul(rowCount, columnCount + 1);
    r := WriteRows(pixels, rowCount, columnCount, BufferLength(rows, columns));
  }

  /** The two loops of `SW_printMNISTImage` once the dimensions are
      `uint32_t`: writes `rows` rows behind each other, then the NUL. */
  method WriteRows(pixels: seq<Byte>, rows: nat, columns: nat, buflen: nat) returns (r: Result<seq<char>>)
    requires 0 < buflen
    requires Times(rows, columns) <= |pixels| || buflen <= |pixels|
    ensures r.Success? <==> Times(rows, columns + 1) < buflen
    ensures r.Success? ==>
              && Times(rows, columns) <= |pixels|
              && r.value == Render(pixels, rows, columns) + ['\0']
              && |r.value| <= buflen
    ensures r.Failure? ==> r.error == BufferOverflow
  {
    var output: seq<char> := [];
    var index := 0;
    var i := 0;
    while i < rows
      invariant 0 <= i <= rows
      invariant index == Times(i, columns)
      invariant |output| == Times(i, columns + 1) < buflen
      invariant index <= |pixels| && output == Render(pixels, i, columns)
    {
      NextRowOffsets(rows, columns, i);
      var written := WriteRow(pixels, index, columns, output, buflen);
      if written.Failure? {
        return written;
      }
      RenderNextRow(pixels, i, columns);
      output := written.value;
      index := index + columns;
      i := i + 1;
    }
    return Success(output + ['\0']);
  }

  /** Row `i + 1` starts one row's pixels and one row's text after row `i`,
      and still within the image. */
  lemma NextRowOffsets(rows: nat, columns: nat, i: nat)
    requires i < rows
    ensures Times(i + 1, columns) == Times(i, columns) + columns <= Times(rows, columns)
    ensures Times(i + 1, columns + 1) == Times(i, columns + 1) + columns + 1 <= Times(rows, columns + 1)
    ensures Times(i, columns) <= Times(i, columns + 1)
  {
    TimesSucc(i, columns);
    TimesMonotone(i + 1, rows, columns);
    TimesMonotone(i + 1, rows, columns + 1);
  }

  /** Rendering one more row appends that row's text and a newline. */
  lemma RenderNextRow(pixels: seq<Byte>, rows: nat, columns: nat)
    requires Times(rows, columns) + columns <= |pixels|
    ensures Times(rows + 1, columns) == Times(rows, columns) + columns
    ensures Render(pixels, rows + 1, columns)
              == Render(pixels, rows, columns) + RowText(pixels[Times(rows, columns) .. Times(rows, columns) + columns]) + ['\n']
  {
  }

  /** One pass of the outer loop of `SW_printMNISTImage`: writes the
      characters of the `columns` pixels from `index` on, then a newline,
      behind `text`, checking the write index against `buflen` after every
      character. It aborts with `BufferOverflow` exactly when the row and its
      newline do not fit with room to spare. */
  method WriteRow(pixels: seq<Byte>, index: nat, columns: nat, text: seq<char>, buflen: nat)
    returns (r: Result<seq<char>>)
    requires |text| < buflen && index <= |text|
    requires index + columns <= |pixels| || buflen <= |pixels|
    ensures r.Success? <==> |text| + columns + 1 < buflen
    ensures r.Success? ==>
              && index + columns <= |pixels|
              && r.value == text + RowText(pixels[index .. index + columns]) + ['\n']
    ensures r.Failure? ==> r.error == BufferOverflow
  {
    var output := text;
    var j := 0;
    while j < columns
      invariant 0 <= j <= columns && index + j <= |pixels|
      invariant |output| == |text| + j < buflen
      invariant output == text + RowText(pixels[index .. index + j])
    {
      var lightval := Lightness(pixels[index + j]);
      RowTextSnoc(pixels, index, j);
      output := output + [LightValues[lightval]];
      if |output| >= buflen {
        return Failure(BufferOverflow);
      }
      j := j + 1;
    }
    output := output + ['\n'];
    if |output| >= buflen {
      return Failure(BufferOverflow);
    }
    return Success(output);
  }

  /** Extending a run of pixels by one extends its text by that pixel's
      character. */
  lemma RowTextSnoc(pixels: seq<Byte>, from: nat, j: nat)
    requires from + j < |pixels|
    ensures RowText(pixels[from .. from + j + 1]) == RowText(pixels[from .. from + j]) + [LightChar(pixels[from + j])]
  {
    assert pixels[from .. from + j + 1] == pixels[from .. from + j] + [pixels[from + j]];
  }

  /** With non-negative dimensions and no signed overflow the buffer always
      holds the rendering and its NUL, so the abort never fires. */
  lemma PrintImageFits(rows: int, columns: int)
    requires 0 <= rows <= INT32_MAX && 0 <= columns <= INT32_MAX
    requires rows * columns + rows + 8 <= INT32_MAX
    ensures ToUint32(rows) == rows && ToUint32(columns) == columns
    ensures BufferLength(rows, columns) == rows * columns + rows + 8
    ensures ToUint32(rows) * (ToUint32(columns) + 1) < BufferLength(rows, columns)
  {
    TimesIsMul(rows, columns);
    TimesIsMul(rows, columns + 1);
    TimesSucc(rows, columns);
  }

  /** A negative row count becomes a huge `uint32_t` loop bound: with
      `rows == -1` and no columns the buffer has 7 characters, the loop
      writes newlines until the write index reaches 7, and the abort
      fires. */
  lemma NegativeRowsOverflow()
    ensures BufferLength(-1, 0) == 7
    ensures ToUint32(-1) == 0xFFFF_FFFF && ToUint32(0) == 0
    ensures !(ToUint32(-1) * (ToUint32(0) + 1) < BufferLength(-1, 0))
  {
  }

  /** A negative buffer size wraps too: with `rows == -100` and no columns
      the buffer length is 2^32 - 92, above the 2^32 - 100 newlines the loop
      writes, so the abort never fires and the renderer finishes. */
  lemma NegativeRowsWrap()
    ensures BufferLength(-100, 0) == 0x1_0000_0000 - 92
    ensures ToUint32(-100) == 0x1_0000_0000 - 100 && ToUint32(0) == 0
    ensures ToUint32(-100) * (ToUint32(0) + 1) < BufferLength(-100, 0)
  {
  }
}
