/**
  The IDX file format the NIST loader reads, as parsers over the bytes of a file that is
  already in memory: a four-byte magic number, a big-endian 32-bit item count, then one
  byte per label (labels file) or eight bytes of image dimensions followed by 784 bytes
  per 28 x 28 image (images file). Also the text rendering of an image and the label
  vector the training data uses.
 */
module Nist {
  import opened Wrappers
  import opened Matrices
  import opened MatrixOps
  import opened Batching

  /** A byte of the file, 0..255. */
  type Byte = b: int | 0 <= b < 256

  /** A signed 8-bit label, -128..127. */
  type Int8 = x: int | -128 <= x < 128

  /** What stops a read: a wrong magic number, or a run-time trap (a read past the end, a byte above 127 as a label). */
  datatype ReadError = InvalidHeader | Trap

  /** One image: its bytes, row after row. */
  datatype Image = Image(source: seq<Byte>)

  const LabelMagic: seq<Byte> := [0, 0, 8, 1]
  const ImageMagic: seq<Byte> := [0, 0, 8, 3]

  // ---------------------------------------------------------------------------
  // Numbers from bytes

  /** `asInt8`: None for no bytes, otherwise the first byte, which must fit an Int8. */
  function AsInt8(data: seq<Byte>): (r: Option<Int8>)
    requires |data| > 0 ==> data[0] <= 127
    ensures r.None? <==> |data| == 0
    ensures r.Some? ==> 0 <= r.value && r.value == data[0]
  {
    if |data| < 1 then None else Some(data[0] as Int8)
  }

  /** `asBigUInt32`: None for fewer than four bytes, otherwise the first four read most significant first. */
  function AsBigUInt32(data: seq<Byte>): (r: Option<nat>)
    ensures r.None? <==> |data| < 4
    ensures r.Some? ==> r.value < 0x1_0000_0000
  {
    if |data| < 4 then None
    else Some((data[0] as int) * 0x100_0000 + (data[1] as int) * 0x1_0000 + (data[2] as int) * 0x100 + data[3])
  }

  /** The four big-endian bytes of a 32-bit number. */
  function BigEndian32(n: nat): (bytes: seq<Byte>)
    requires n < 0x1_0000_0000
    ensures |bytes| == 4
  {
    [n / 0x100_0000, (n / 0x1_0000) % 0x100, (n / 0x100) % 0x100, n % 0x100]
  }

  /** Reading back the big-endian bytes of n gives n, whatever follows them. */
  lemma BigEndianRoundTrip(n: nat, rest: seq<Byte>)
    requires n < 0x1_0000_0000
    ensures AsBigUInt32(BigEndian32(n) + rest) == Some(n)
  {
    var b := BigEndian32(n) + rest;
    assert n % 0x100_0000 == ((n / 0x1_0000) % 0x100) * 0x1_0000 + (n % 0x1_0000);
    assert n % 0x1_0000 == ((n / 0x100) % 0x100) * 0x100 + n % 0x100;
    assert (b[0] as int) * 0x100_0000 + (b[1] as int) * 0x1_0000 + (b[2] as int) * 0x100 + b[3] == n;
  }

  /** The big-endian bytes of what four bytes read as are those four bytes. */
  lemma BigEndianOfRead(data: seq<Byte>)
    requires |data| >= 4
    ensures BigEndian32(AsBigUInt32(data).value) == data[..4]
  {
    var n := AsBigUInt32(data).value;
    var d0, d1, d2, d3: nat := data[0], data[1], data[2], data[3];
    assert n == d0 * 0x100_0000 + (d1 * 0x1_0000 + d2 * 0x100 + d3);
    Shift24(d0, d1 * 0x1_0000 + d2 * 0x100 + d3);
    assert n == (d0 * 0x100 + d1) * 0x1_0000 + (d2 * 0x100 + d3);
    Shift16(d0 * 0x100 + d1, d2 * 0x100 + d3);
    Shift8(d0, d1);
    assert n == ((d0 * 0x100 + d1) * 0x100 + d2) * 0x100 + d3;
    Shift8((d0 * 0x100 + d1) * 0x100 + d2, d3);
    Shift8(d0 * 0x100 + d1, d2);
  }

  /** Splitting hi * 2^8 + lo, for lo below 2^8, at bit 8. */
  lemma Shift8(hi: nat, lo: nat)
    requires lo < 0x100
    ensures (hi * 0x100 + lo) / 0x100 == hi && (hi * 0x100 + lo) % 0x100 == lo
  {
  }

  /** Splitting hi * 2^16 + lo, for lo below 2^16, at bit 16. */
  lemma Shift16(hi: nat, lo: nat)
    requires lo < 0x1_0000
    ensures (hi * 0x1_0000 + lo) / 0x1_0000 == hi
  {
  }

  /** Splitting hi * 2^24 + lo, for lo below 2^24, at bit 24. */
  lemma Shift24(hi: nat, lo: nat)
    requires lo < 0x100_0000
    ensures (hi * 0x100_0000 + lo) / 0x100_0000 == hi
  {
  }

  // ---------------------------------------------------------------------------
  // Labels file

  /**
    The label loop from label i on, with the labels before i already in acc: label k is
    the byte at 8 + k, and reading it traps past the end of the data or above 127.
   */
  function LabelsFrom(data: seq<Byte>, count: nat, i: nat, acc: seq<Int8>): (r: Result<seq<Int8>, ReadError>)
    requires 8 + i <= |data| && i <= count && |acc| == i
    requires forall k :: 8 <= k < 8 + i ==> data[k] <= 127
    requires forall k :: 0 <= k < i ==> acc[k] == data[8 + k]
    ensures r.Err? ==> r.error == Trap
    ensures r.Ok? <==> 8 + count <= |data| && forall k :: 8 + i <= k < 8 + count ==> data[k] <= 127
    ensures r.Ok? ==> |r.value| == count && forall k :: 0 <= k < count ==> r.value[k] == data[8 + k]
    decreases count - i
  {
    if i >= count then Ok(acc)
    else if 9 + i > |data| then Err(Trap)
    else if data[8 + i] > 127 then Err(Trap)
    else LabelsFrom(data, count, i + 1, acc + [AsInt8(data[8 + i..9 + i]).value])
  }

  /** The item count of a file that has its eight header bytes. */
  function Count(data: seq<Byte>): (n: nat)
    requires |data| >= 8
    ensures n < 0x1_0000_0000
  {
    AsBigUInt32(data[4..8]).value
  }

  /**
    `readLabels` on the bytes of a labels file: the header must be 0, 0, 8, 1; the next
    four bytes give the count, and label i is byte 8 + i.
   */
  function ReadLabels(data: seq<Byte>): (r: Result<seq<Int8>, ReadError>)
    ensures r == Err(InvalidHeader) <==> |data| >= 4 && data[..4] != LabelMagic
    ensures r.Ok? <==>
              && |data| >= 8 && data[..4] == LabelMagic && 8 + Count(data) <= |data|
              && forall k :: 8 <= k < 8 + Count(data) ==> data[k] <= 127
    ensures r.Ok? ==> |r.value| == Count(data) && forall k :: 0 <= k < |r.value| ==> r.value[k] == data[8 + k]
  {
    if |data| < 4 then Err(Trap)
    else if data[..4] != LabelMagic then Err(InvalidHeader)
    else if |data| < 8 then Err(Trap)
    else LabelsFrom(data, Count(data), 0, [])
  }

  /** The labels file holding the given labels, each of which a byte can hold. */
  function EncodeLabels(labels: seq<Int8>): (data: seq<Byte>)
    requires |labels| < 0x1_0000_0000 && forall k :: 0 <= k < |labels| ==> labels[k] >= 0
  {
    LabelMagic + BigEndian32(|labels|) + seq(|labels|, k requires 0 <= k < |labels| => labels[k] as Byte)
  }

  /** Reading an encoded labels file gives back its labels. */
  lemma ReadEncodedLabels(labels: seq<Int8>)
    requires |labels| < 0x1_0000_0000 && forall k :: 0 <= k < |labels| ==> labels[k] >= 0
    ensures ReadLabels(EncodeLabels(labels)) == Ok(labels)
  {
    var data := EncodeLabels(labels);
    var body := seq(|labels|, k requires 0 <= k < |labels| => labels[k] as Byte);
    assert data == LabelMagic + (BigEndian32(|labels|) + body);
    BigEndianRoundTrip(|labels|, body);
    assert data[4..8] == BigEndian32(|labels|);
    assert data[..4] == LabelMagic;
    var r := ReadLabels(data);
    assert r.Ok?;
    assert r.value == labels;
  }

  // ---------------------------------------------------------------------------
  // Images file

  /**
    The image loop from image i on: image k is the 784 bytes from 16 + k * 784, and
    reading them traps past the end of the data.
   */
  function ImagesFrom(data: seq<Byte>, count: nat, i: nat, acc: seq<Image>): (r: Result<seq<Image>, ReadError>)
    requires i <= count && |acc| == i && (i == 0 || 16 + i * 784 <= |data|)
    requires forall k :: 0 <= k < i ==> acc[k].source == data[16 + k * 784..16 + (k + 1) * 784]
    ensures r.Err? ==> r.error == Trap
    ensures r.Ok? <==> count == 0 || 16 + count * 784 <= |data|
    ensures r.Ok? ==>
              && |r.value| == count
              && forall k :: 0 <= k < count ==> r.value[k].source == data[16 + k * 784..16 + (k + 1) * 784]
    decreases count - i
  {
    if i >= count then Ok(acc)
    else if 16 + (i + 1) * 784 > |data| then Err(Trap)
    else ImagesFrom(data, count, i + 1, acc + [Image(data[16 + i * 784..16 + (i + 1) * 784])])
  }

  /**
    `readImages` on the bytes of an images file: the header must be 0, 0, 8, 3; the next
    four bytes give the count; the eight bytes of dimensions are not read, and pixel j of
    image i is byte 16 + i * 784 + j.
   */
  function ReadImages(data: seq<Byte>): (r: Result<seq<Image>, ReadError>)
    ensures r == Err(InvalidHeader) <==> |data| >= 4 && data[..4] != ImageMagic
    ensures r.Ok? <==> |data| >= 8 && data[..4] == ImageMagic && (Count(data) == 0 || 16 + Count(data) * 784 <= |data|)
    ensures r.Ok? ==>
              && |r.value| == Count(data)
              && forall i, j :: 0 <= i < |r.value| && 0 <= j < 784 ==>
                   16 + i * 784 + j < |data| && |r.value[i].source| == 784 &&
                   r.value[i].source[j] == data[16 + i * 784 + j]
  {
    if |data| < 4 then Err(Trap)
    else if data[..4] != ImageMagic then Err(InvalidHeader)
    else if |data| < 8 then Err(Trap)
    else
      ImagesFrom(data, Count(data), 0, [])
  }

  /** k whole blocks of `size` come first in the flattening of equal-sized blocks. */
  lemma {:induction false} FlattenBlock(blocks: seq<seq<Byte>>, size: nat, k: nat)
    requires forall i :: 0 <= i < |blocks| ==> |blocks[i]| == size
    requires k < |blocks|
    ensures |Flatten(blocks)| == |blocks| * size
    ensures (k + 1) * size <= |Flatten(blocks)|
    ensures Flatten(blocks)[k * size..(k + 1) * size] == blocks[k]
    decreases k
  {
    FlattenLength(blocks, size);
    if size > 0 {
      MulLe(k + 1, |blocks|, size);
    }
    var rest := blocks[1..];
    assert Flatten(blocks) == blocks[0] + Flatten(rest);
    if k > 0 {
      FlattenBlock(rest, size, k - 1);
      assert Flatten(blocks)[k * size..(k + 1) * size] == Flatten(rest)[(k - 1) * size..k * size];
    }
  }

  /** Equal-sized blocks flatten to count * size items. */
  lemma {:induction false} FlattenLength(blocks: seq<seq<Byte>>, size: nat)
    requires forall i :: 0 <= i < |blocks| ==> |blocks[i]| == size
    ensures |Flatten(blocks)| == |blocks| * size
    decreases |blocks|
  {
    if |blocks| > 0 {
      FlattenLength(blocks[1..], size);
    }
  }

  /** The images file holding the given images, with any eight bytes of dimensions. */
  function EncodeImages(images: seq<Image>, dimensions: seq<Byte>): (data: seq<Byte>)
    requires |images| < 0x1_0000_0000 && |dimensions| == 8
  {
    ImageMagic + BigEndian32(|images|) + dimensions + Flatten(seq(|images|, k requires 0 <= k < |images| => images[k].source))
  }

  /** Reading an encoded images file gives back its images when each has 784 pixels. */
  lemma ReadEncodedImages(images: seq<Image>, dimensions: seq<Byte>)
    requires |images| < 0x1_0000_0000 && |dimensions| == 8
    requires forall k :: 0 <= k < |images| ==> |images[k].source| == 784
    ensures ReadImages(EncodeImages(images, dimensions)) == Ok(images)
  {
    var blocks := seq(|images|, k requires 0 <= k < |images| => images[k].source);
    var pixels := Flatten(blocks);
    var data := EncodeImages(images, dimensions);
    assert data == ImageMagic + (BigEndian32(|images|) + (dimensions + pixels));
    BigEndianRoundTrip(|images|, dimensions + pixels);
    assert data[4..8] == BigEndian32(|images|);
    assert data[..4] == ImageMagic;
    FlattenLength(blocks, 784);
    assert data[16..] == pixels;
    assert Count(data) == |images| && |data| == 16 + |images| * 784;
    var r := ImagesFrom(data, |images|, 0, []);
    assert ReadImages(data) == r && r.Ok?;
    forall k | 0 <= k < |images|
      ensures r.value[k] == images[k]
    {
      FlattenBlock(blocks, 784, k);
      assert data[16 + k * 784..16 + (k + 1) * 784] == pixels[k * 784..(k + 1) * 784];
    }
    assert r.value == images;
  }

  // ---------------------------------------------------------------------------
  // Rendering

  /** The characters of the brightness bands, darkest first. */
  const Palette: string := " .*ox0#"

  /** How many of the band thresholds 20, 50, 100, 150, 200 and 240 the byte is above. */
  function Band(b: Byte): (n: nat)
    ensures n < |Palette|
  {
    (if b > 20 then 1 else 0) + (if b > 50 then 1 else 0) + (if b > 100 then 1 else 0) +
    (if b > 150 then 1 else 0) + (if b > 200 then 1 else 0) + (if b > 240 then 1 else 0)
  }

  /** `asColorChar`: the first band, brightest first, whose threshold the byte is above. */
  function ColorChar(b: Byte): (c: char)
    ensures c == Palette[Band(b)]
  {
    if b > 240 then '#'
    else if b > 200 then '0'
    else if b > 150 then 'x'
    else if b > 100 then 'o'
    else if b > 50 then '*'
    else if b > 20 then '.'
    else ' '
  }

  /** A brighter byte never gets a character from a darker band. */
  lemma ColorCharMonotone(a: Byte, b: Byte)
    requires a <= b
    ensures ColorChar(a) in Palette[..Band(b) + 1]
  {
    assert ColorChar(a) == Palette[..Band(b) + 1][Band(a)];
  }

  /** The pixel in row i and column j of an image's bytes. */
  function Pixel(source: seq<Byte>, i: nat, j: nat): Byte
    requires i < 28 && j < 28 && |source| >= 784
  {
    source[i * 28 + j]
  }

  /** Row i of the rendering: the characters of its 28 pixels and a newline. */
  function Line(source: seq<Byte>, i: nat): (line: string)
    requires i < 28 && |source| >= 784
    ensures |line| == 29 && line[28] == '\n'
    ensures forall j :: 0 <= j < 28 ==> line[j] == ColorChar(Pixel(source, i, j))
  {
    seq(28, j requires 0 <= j < 28 => ColorChar(Pixel(source, i, j))) + "\n"
  }

  /** Character `column` of line `row` of a rendering whose lines are 29 characters long. */
  function CharAt(text: string, row: nat, column: nat): char
    requires row * 29 + column < |text|
  {
    text[row * 29 + column]
  }

  /** The rendering from row i on: each row's line, in order; its line d renders row i + d. */
  function TextFrom(source: seq<Byte>, i: nat): (text: string)
    requires i <= 28 && |source| >= 784
    ensures |text| == (28 - i) * 29
    ensures forall d, j :: 0 <= d < 28 - i && 0 <= j < 28 ==> CharAt(text, d, j) == ColorChar(Pixel(source, i + d, j))
    ensures forall d :: 0 <= d < 28 - i ==> CharAt(text, d, 28) == '\n'
    decreases 28 - i
  {
    if i == 28 then ""
    else
      var line, rest := Line(source, i), TextFrom(source, i + 1);
      var text := line + rest;
      assert forall d, j :: 0 < d < 28 - i && 0 <= j <= 28 ==> CharAt(text, d, j) == CharAt(rest, d - 1, j);
      text
  }

  /**
    `Image.toString`: 28 lines of 28 characters each ended by a newline; character j of
    line i renders pixel i * 28 + j. The image must have at least 784 bytes.
   */
  function ImageText(image: Image): (text: string)
    requires |image.source| >= 784
    ensures |text| == 28 * 29
    ensures forall i, j :: 0 <= i < 28 && 0 <= j < 28 ==> CharAt(text, i, j) == ColorChar(Pixel(image.source, i, j))
    ensures forall i :: 0 <= i < 28 ==> CharAt(text, i, 28) == '\n'
  {
    TextFrom(image.source, 0)
  }

  // ---------------------------------------------------------------------------
  // Label vectors

  /** `Int8.asVector` as written: 10 x 1 with 0.0 in the digit's row and 1.0 in every other row. */
  function LabelAsVector(digit: Int8): (m: Matrix)
    ensures Valid(m) && m.rows == 10 && m.columns == 1
    ensures forall r: nat :: r < 10 ==> (Get(m, r, 0) == 0.0 <==> r == digit) && (Get(m, r, 0) == 1.0 <==> r != digit)
  {
    Generate(10, 1, (row: nat, c: nat) requires row < 10 && c < 1 => if row == digit then 0.0 else 1.0)
  }

  /** The one-hot label vector the training target evidently means: 1.0 in the digit's row, 0.0 elsewhere. */
  function OneHot(digit: Int8): (m: Matrix)
    ensures Valid(m) && m.rows == 10 && m.columns == 1
    ensures forall r: nat :: r < 10 ==> (Get(m, r, 0) == 1.0 <==> r == digit) && (Get(m, r, 0) == 0.0 <==> r != digit)
  {
    Generate(10, 1, (row: nat, c: nat) requires row < 10 && c < 1 => if row == digit then 1.0 else 0.0)
  }

  /** The vector as written is the intended one with every cell flipped. */
  lemma LabelVectorIsInverted(digit: Int8)
    ensures forall r: nat :: r < 10 ==> Get(LabelAsVector(digit), r, 0) == 1.0 - Get(OneHot(digit), r, 0)
  {
    var w, h := LabelAsVector(digit), OneHot(digit);
    forall r: nat | r < 10
      ensures Get(w, r, 0) == 1.0 - Get(h, r, 0)
    {
      if r == digit {
        assert Get(w, r, 0) == 0.0 && Get(h, r, 0) == 1.0;
      } else {
        assert Get(w, r, 0) == 1.0 && Get(h, r, 0) == 0.0;
      }
    }
  }

  /**
    Reading a digit back with `maxRow` finds the digit in the intended vector, but in the
    vector as written it finds row 0, or row 1 for the digit 0.
   */
  lemma MaxRowOfLabelVectors(digit: Int8)
    requires 0 <= digit < 10
    ensures MaxRow(OneHot(digit), 0) == digit
    ensures MaxRow(LabelAsVector(digit), 0) == if digit == 0 then 1 else 0
  {
    var h, w := OneHot(digit), LabelAsVector(digit);
    MaxRowUnique(h, 0, digit);
    var k := if digit == 0 then 1 else 0;
    assert Get(w, k, 0) == 1.0;
    MaxRowUnique(w, 0, k);
  }
}
