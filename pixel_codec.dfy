/** The per-frame transforms of the interchange format: the BGR-to-RGB swap,
    the "R G B" text line written for every pixel of an input frame, and the
    scaling applied to binary-channel values read back from the simulator. */
module PixelCodec {
  import opened Wrappers
  import opened DecimalText
  import opened Grids

  /** An unsigned 8-bit value, numpy's uint8. */
  type byte = x: int | 0 <= x < 256

  /** One pixel as the array stores it: channel 0, 1 and 2 in memory order.
      OpenCV decodes video into channel order B, G, R. */
  datatype Pixel = Pixel(ch0: byte, ch1: byte, ch2: byte)

  /** `cv2.cvtColor(frame, cv2.COLOR_BGR2RGB)` on one pixel: channels 0 and 2
      trade places, channel 1 stays. */
  function BgrToRgb(p: Pixel): Pixel {
    Pixel(p.ch2, p.ch1, p.ch0)
  }

  /** The line written for one pixel: its three channels in memory order, in
      decimal, separated by single spaces, ended by a newline. */
  function PixelLine(p: Pixel): string {
    Decimal(p.ch0) + " " + Decimal(p.ch1) + " " + Decimal(p.ch2) + "\n"
  }

  /** The lines of an extracted input frame: one line per pixel of the
      colour-swapped frame, in row-major order. */
  function EncodeFrame(frame: Grid<Pixel>): (lines: seq<string>) {
    var pixels := Flatten(MapGrid(frame, BgrToRgb));
    seq(|pixels|, i requires 0 <= i < |pixels| => PixelLine(pixels[i]))
  }

  /** An encoded frame of height x width pixels has exactly width * height
      lines, and line r * width + c holds pixel (r, c) as R, G, B, that is
      source channels 2, 1, 0. */
  lemma EncodedLineAt(frame: Grid<Pixel>, height: nat, width: nat, r: nat, c: nat)
    requires IsGrid(frame, height, width)
    requires r < height && c < width
    ensures |EncodeFrame(frame)| == height * width
    ensures r * width + c < height * width
    ensures EncodeFrame(frame)[r * width + c]
         == Decimal(frame[r][c].ch2) + " " + Decimal(frame[r][c].ch1) + " " + Decimal(frame[r][c].ch0) + "\n"
  {
    var rgb := MapGrid(frame, BgrToRgb);
    assert IsGrid(rgb, height, width);
    FlattenLength(rgb, height, width);
    FlattenAt(rgb, height, width, r, c);
  }

  // ---------------------------------------------------------------------
  // Reading an encoded input frame back (the consumer's side of the format)
  // ---------------------------------------------------------------------

  /** Splits `s` at the first occurrence of `sep`: the text before it and the
      text after it; `None` when `sep` does not occur. */
  function SplitAtFirst(s: string, sep: char): (r: Option<(string, string)>)
    ensures r.Some? ==> sep !in r.value.0 && s == r.value.0 + [sep] + r.value.1
    ensures r.None? ==> sep !in s
  {
    if s == [] then None
    else if s[0] == sep then Some(([], s[1..]))
    else match SplitAtFirst(s[1..], sep)
      case None => None
      case Some((before, after)) => Some(([s[0]] + before, after))
  }

  /** Reads one channel value: a non-empty run of digits whose value is a byte. */
  function ParseByte(t: string): (r: Option<byte>) {
    if t != [] && AllDigits(t) && ParseDecimal(t) < 256 then Some(ParseDecimal(t)) else None
  }

  /** Reads one "a b c\n" line back into a pixel. */
  function ParsePixelLine(line: string): Option<Pixel> {
    match SplitAtFirst(line, ' ')
    case None => None
    case Some((t0, rest0)) =>
      match SplitAtFirst(rest0, ' ')
      case None => None
      case Some((t1, rest1)) =>
        match SplitAtFirst(rest1, '\n')
        case None => None
        case Some((t2, rest2)) =>
          match (ParseByte(t0), ParseByte(t1), ParseByte(t2))
          case (Some(a), Some(b), Some(c)) => if rest2 == [] then Some(Pixel(a, b, c)) else None
          case _ => None
  }

  /** Reads every line of a file into a pixel; `None` if any line is malformed. */
  function ParsePixelLines(lines: seq<string>): (r: Option<seq<Pixel>>)
    ensures r.Some? ==> |r.value| == |lines|
  {
    if lines == [] then Some([])
    else match (ParsePixelLine(lines[0]), ParsePixelLines(lines[1..]))
      case (Some(p), Some(ps)) => Some([p] + ps)
      case _ => None
  }

  /** Why an input frame file cannot be read back. */
  datatype DecodeError = MalformedLine | WrongLineCount(count: nat)

  /** Reads an input frame file back into a height x width grid of pixels. */
  function DecodeInputFrame(lines: seq<string>, height: nat, width: nat): Result<Grid<Pixel>, DecodeError> {
    match ParsePixelLines(lines)
    case None => Failure(MalformedLine)
    case Some(pixels) =>
      match Reshape(pixels, height, width)
      case Success(g) => Success(g)
      case Failure(_) => Failure(WrongLineCount(|lines|))
  }

  /** Splitting `a`, `sep`, `b` at the first `sep` recovers `a` and `b` when `a` holds no `sep`. */
  lemma {:induction false} SplitAtFirstOf(a: string, sep: char, b: string)
    requires sep !in a
    ensures SplitAtFirst(a + [sep] + b, sep) == Some((a, b))
  {
    var s := a + [sep] + b;
    if a == [] {
      assert s[0] == sep && s[1..] == b;
    } else {
      assert s[0] == a[0] != sep;
      assert s[1..] == a[1..] + [sep] + b;
      SplitAtFirstOf(a[1..], sep, b);
      assert [a[0]] + a[1..] == a;
    }
  }

  lemma DecimalHasNoSeparator(n: nat, sep: char)
    requires !IsDigit(sep)
    ensures sep !in Decimal(n)
  {
  }

  lemma ParseByteOfDecimal(v: byte)
    ensures ParseByte(Decimal(v)) == Some(v)
  {
    ParseDecimalOfDecimal(v);
  }

  /** Every pixel line reads back as the pixel it was written from. */
  lemma ParsePixelLineOfPixelLine(p: Pixel)
    ensures ParsePixelLine(PixelLine(p)) == Some(p)
  {
    var d0, d1, d2 := Decimal(p.ch0), Decimal(p.ch1), Decimal(p.ch2);
    DecimalHasNoSeparator(p.ch0, ' ');
    DecimalHasNoSeparator(p.ch1, ' ');
    DecimalHasNoSeparator(p.ch2, '\n');
    assert PixelLine(p) == d0 + [' '] + (d1 + " " + d2 + "\n");
    SplitAtFirstOf(d0, ' ', d1 + " " + d2 + "\n");
    assert d1 + " " + d2 + "\n" == d1 + [' '] + (d2 + "\n");
    SplitAtFirstOf(d1, ' ', d2 + "\n");
    assert d2 + "\n" == d2 + ['\n'] + [];
    SplitAtFirstOf(d2, '\n', []);
    ParseByteOfDecimal(p.ch0);
    ParseByteOfDecimal(p.ch1);
    ParseByteOfDecimal(p.ch2);
  }

  lemma {:induction false} ParsePixelLinesOfLines(pixels: seq<Pixel>)
    ensures ParsePixelLines(seq(|pixels|, i requires 0 <= i < |pixels| => PixelLine(pixels[i]))) == Some(pixels)
  {
    var lines := seq(|pixels|, i requires 0 <= i < |pixels| => PixelLine(pixels[i]));
    if pixels != [] {
      ParsePixelLineOfPixelLine(pixels[0]);
      assert lines[1..] == seq(|pixels[1..]|, i requires 0 <= i < |pixels[1..]| => PixelLine(pixels[1..][i]));
      ParsePixelLinesOfLines(pixels[1..]);
      assert pixels == [pixels[0]] + pixels[1..];
    }
  }

  /** Round trip: reading back an encoded height x width frame yields the
      frame with its channels swapped to R, G, B. */
  lemma DecodeEncodeFrame(frame: Grid<Pixel>, height: nat, width: nat)
    requires IsGrid(frame, height, width)
    ensures DecodeInputFrame(EncodeFrame(frame), height, width) == Success(MapGrid(frame, BgrToRgb))
  {
    var rgb := MapGrid(frame, BgrToRgb);
    assert IsGrid(rgb, height, width);
    ParsePixelLinesOfLines(Flatten(rgb));
    ReshapeFlatten(rgb, height, width);
  }

  // ---------------------------------------------------------------------
  // Binary channel scaling
  // ---------------------------------------------------------------------

  /** `(v * 255).astype(np.uint8)` on a uint8 value: the product wraps modulo 256. */
  function ScaleBinary(v: byte): byte {
    (v * 255) % 256
  }

  /** Scaling by 255 modulo 256 is negation modulo 256: 0 stays 0, 1 becomes
      255, and any other stored value v becomes 256 - v (no range check). */
  lemma ScaleBinaryIsNegation(v: byte)
    ensures ScaleBinary(v) == (256 - v) % 256
    ensures v == 0 ==> ScaleBinary(v) == 0
    ensures v == 1 ==> ScaleBinary(v) == 255
  {
    assert v * 255 == v * 256 - v;
    if v > 0 {
      assert v * 255 == (v - 1) * 256 + (256 - v);
    }
  }

  /** A binary frame whose stored values are all 0 or 1 scales to a frame of
      0s and 255s, cell by cell. */
  lemma ScaleBinaryGrid(g: Grid<byte>)
    requires forall r, c :: 0 <= r < |g| && 0 <= c < |g[r]| ==> g[r][c] == 0 || g[r][c] == 1
    ensures forall r, c :: 0 <= r < |g| && 0 <= c < |g[r]| ==>
              var s := MapGrid(g, ScaleBinary)[r][c]; (s == 0 || s == 255) && (s == 255 <==> g[r][c] == 1)
  {
    forall r, c | 0 <= r < |g| && 0 <= c < |g[r]|
      ensures var s := MapGrid(g, ScaleBinary)[r][c]; (s == 0 || s == 255) && (s == 255 <==> g[r][c] == 1)
    {
      ScaleBinaryIsNegation(g[r][c]);
    }
  }
}
