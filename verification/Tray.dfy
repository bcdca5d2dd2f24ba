/** The status-bar frames: a waveform and a brand mark on one RGBA canvas (scrybe-cli/src/tray.rs). */
module Tray {
  import opened Wrappers
  import opened Arithmetic

  const WAVEFORM_SIZE := 18
  const BRAND_SIZE := 18
  const BRAND_GAP := 3
  const BARS := 5

  newtype Byte = x: int | 0 <= x < 256

  /** One bar's height for each of the five bars. */
  type Heights = hs: seq<nat> | |hs| == BARS && forall h | h in hs :: h <= WAVEFORM_SIZE witness [0, 0, 0, 0, 0]

  type Color = c: seq<Byte> | |c| == 4 witness [0, 0, 0, 0]

  type Brand = b: seq<Byte> | |b| == BRAND_SIZE * BRAND_SIZE * 4 witness seq(BRAND_SIZE * BRAND_SIZE * 4, _ => 0)

  const WAVEFORM_HEIGHTS: seq<Heights> := [
    [4, 8, 14, 8, 4], [6, 12, 8, 16, 6], [10, 6, 4, 12, 16], [6, 12, 16, 12, 6],
    [4, 10, 16, 8, 12], [12, 6, 10, 16, 8], [16, 10, 6, 12, 4], [8, 14, 10, 6, 12]
  ]

  const RED_MIX: seq<Byte> := [0, 64, 128, 192, 255, 192, 128, 64]

  const RECORDING_RED: seq<Byte> := [215, 68, 56]

  // ---- Positions ----

  /** The first byte of a pixel. */
  function Offset(width: nat, row: nat, column: nat): nat {
    (row * width + column) * 4
  }

  function Row(width: nat, i: nat): (r: nat)
    requires width > 0
  {
    QuotientAndRest(i / 4, width);
    i / 4 / width
  }

  function Column(width: nat, i: nat): (c: nat)
    requires width > 0
    ensures c < width
  {
    QuotientAndRest(i / 4, width);
    i / 4 % width
  }

  /** The four bytes of a pixel are those with its row and column. */
  lemma BytesOfAPixel(width: nat, row: nat, column: nat, i: nat)
    requires column < width
    ensures Offset(width, row, column) <= i < Offset(width, row, column) + 4
            <==> Row(width, i) == row && Column(width, i) == column
  {
    QuotientAndRest(i / 4, width);
    QuotientIs(row, column, width);
    assert i / 4 == row * width + column <==> Offset(width, row, column) <= i < Offset(width, row, column) + 4;
  }

  lemma PixelInRange(width: nat, height: nat, row: nat, column: nat)
    requires row < height && column < width
    ensures Offset(width, row, column) + 4 <= width * height * 4
  {
    ProductsGrow(row, height, width);
  }

  lemma RowInRange(width: nat, height: nat, i: nat)
    requires width > 0 && i < width * height * 4
    ensures Row(width, i) < height
  {
    QuotientAndRest(i / 4, width);
    if Row(width, i) >= height {
      ProductsGrow(height, Row(width, i), width);
    }
  }

  // ---- The waveform ----

  function FirstRow(height: nat): nat
    requires height <= WAVEFORM_SIZE
  {
    (WAVEFORM_SIZE - height) / 2
  }

  /** Two columns wide, centred vertically, one column of space after each bar. */
  predicate InBar(heights: Heights, bar: nat, row: nat, column: nat)
    requires bar < BARS
  {
    && FirstRow(heights[bar]) <= row < FirstRow(heights[bar]) + heights[bar]
    && 1 + bar * 3 <= column < 1 + bar * 3 + 2
  }

  predicate LitBelow(heights: Heights, bars: nat, row: nat, column: nat)
    requires bars <= BARS
  {
    exists bar | 0 <= bar < bars :: InBar(heights, bar, row, column)
  }

  predicate Lit(heights: Heights, row: nat, column: nat) {
    LitBelow(heights, BARS, row, column)
  }

  /** The canvas with the lit pixels in the colour and everything else as it was. */
  function WithWaveform(canvas: seq<Byte>, width: nat, heights: Heights, color: Color): seq<Byte>
    requires width > 0
  {
    seq(|canvas|, i requires 0 <= i < |canvas| => if Lit(heights, Row(width, i), Column(width, i)) then color[i % 4] else canvas[i])
  }

  method PutPixel(canvas: array<Byte>, width: nat, row: nat, column: nat, color: Color)
    requires canvas.Length == width * WAVEFORM_SIZE * 4 && row < WAVEFORM_SIZE && column < width
    modifies canvas
    ensures forall i | 0 <= i < canvas.Length ::
      canvas[i] == if Row(width, i) == row && Column(width, i) == column then color[i % 4] else old(canvas[i])
  {
    PixelInRange(width, WAVEFORM_SIZE, row, column);
    var pixel := Offset(width, row, column);
    forall i | 0 <= i < canvas.Length
      ensures pixel <= i < pixel + 4 <==> Row(width, i) == row && Column(width, i) == column
      ensures pixel <= i < pixel + 4 ==> i % 4 == i - pixel
    {
      BytesOfAPixel(width, row, column, i);
    }
    hide Row, Column, Offset;
    canvas[pixel], canvas[pixel + 1], canvas[pixel + 2], canvas[pixel + 3] := color[0], color[1], color[2], color[3];
  }

  method DrawWaveform(canvas: array<Byte>, width: nat, heights: Heights, color: Color)
    requires width >= 1 + 3 * BARS - 1 && canvas.Length == width * WAVEFORM_SIZE * 4
    modifies canvas
    ensures canvas[..] == WithWaveform(old(canvas[..]), width, heights, color)
  {
    hide Row, Column;
    for bar := 0 to BARS
      invariant forall i | 0 <= i < canvas.Length ::
        canvas[i] == if LitBelow(heights, bar, Row(width, i), Column(width, i)) then color[i % 4] else old(canvas[i])
    {
      ghost var before := canvas[..];
      DrawBar(canvas, width, heights, bar, color);
      forall i | 0 <= i < canvas.Length
        ensures canvas[i] == if LitBelow(heights, bar + 1, Row(width, i), Column(width, i)) then color[i % 4] else old(canvas[i])
      {
        assert canvas[i] == if InBar(heights, bar, Row(width, i), Column(width, i)) then color[i % 4] else before[i];
        OneMoreBar(heights, bar, Row(width, i), Column(width, i));
      }
    }
  }

  lemma OneMoreBar(heights: Heights, bar: nat, row: nat, column: nat)
    requires bar < BARS
    ensures LitBelow(heights, bar + 1, row, column) <==> LitBelow(heights, bar, row, column) || InBar(heights, bar, row, column)
  {}

  method DrawBar(canvas: array<Byte>, width: nat, heights: Heights, bar: nat, color: Color)
    requires width >= 1 + 3 * BARS - 1 && canvas.Length == width * WAVEFORM_SIZE * 4 && bar < BARS
    modifies canvas
    ensures forall i | 0 <= i < canvas.Length ::
      canvas[i] == if InBar(heights, bar, Row(width, i), Column(width, i)) then color[i % 4] else old(canvas[i])
  {
    hide Row, Column;
    var height := heights[bar];
    var firstRow := FirstRow(height);
    var firstColumn := 1 + bar * 3;
    for row := firstRow to firstRow + height
      invariant forall i | 0 <= i < canvas.Length ::
        canvas[i] == if firstRow <= Row(width, i) < row && firstColumn <= Column(width, i) < firstColumn + 2
                     then color[i % 4] else old(canvas[i])
    {
      ghost var before := canvas[..];
      for column := firstColumn to firstColumn + 2
        invariant forall i | 0 <= i < canvas.Length ::
          canvas[i] == if Row(width, i) == row && firstColumn <= Column(width, i) < column then color[i % 4] else before[i]
      {
        PutPixel(canvas, width, row, column, color);
      }
    }
  }

  // ---- The brand mark ----

  /** The byte of the brand's own pixels that lands on byte `i` of the canvas. */
  function BrandByte(width: nat, offset: nat, i: nat): nat
    requires width > 0 && offset <= Column(width, i)
  {
    Offset(BRAND_SIZE, Row(width, i), Column(width, i) - offset) + i % 4
  }

  predicate Covered(width: nat, offset: nat, i: nat)
    requires width > 0
  {
    Row(width, i) < BRAND_SIZE && offset <= Column(width, i) < offset + BRAND_SIZE
  }

  lemma BrandByteInRange(width: nat, offset: nat, i: nat)
    requires width > 0 && Covered(width, offset, i)
    ensures BrandByte(width, offset, i) < BRAND_SIZE * BRAND_SIZE * 4
  {
    PixelInRange(BRAND_SIZE, BRAND_SIZE, Row(width, i), Column(width, i) - offset);
  }

  /** The canvas with the brand mark at a column offset and everything else as it was. */
  function WithBrand(canvas: seq<Byte>, width: nat, offset: nat, brand: Brand): seq<Byte>
    requires width > 0
  {
    seq(|canvas|, i requires 0 <= i < |canvas| =>
          if Covered(width, offset, i) then (BrandByteInRange(width, offset, i); brand[BrandByte(width, offset, i)]) else canvas[i])
  }

  /** A row of the brand is contiguous on the canvas. */
  lemma BytesOfABrandRow(width: nat, offset: nat, row: nat, i: nat)
    requires offset + BRAND_SIZE <= width
    ensures var destination := Offset(width, row, offset);
            && (destination <= i < destination + BRAND_SIZE * 4
                <==> Row(width, i) == row && offset <= Column(width, i) < offset + BRAND_SIZE)
            && (destination <= i < destination + BRAND_SIZE * 4
                ==> BrandByte(width, offset, i) == row * BRAND_SIZE * 4 + (i - destination))
  {
    var p := i / 4;
    QuotientAndRest(p, width);
    var start := row * width + offset;
    if start <= p < start + BRAND_SIZE {
      QuotientIs(row, p - row * width, width);
    }
    assert Offset(width, row, offset) <= i < Offset(width, row, offset) + BRAND_SIZE * 4 <==> start <= p < start + BRAND_SIZE;
  }

  /** All eighteen rows of the brand land on the canvas exactly when it fits beside its offset. */
  lemma BrandFitsIff(width: nat, offset: nat)
    ensures (forall row | 0 <= row < BRAND_SIZE :: Offset(width, row, offset) + BRAND_SIZE * 4 <= width * WAVEFORM_SIZE * 4)
            <==> offset + BRAND_SIZE <= width
  {
    var last := BRAND_SIZE - 1;
    assert Offset(width, last, offset) + BRAND_SIZE * 4 <= width * WAVEFORM_SIZE * 4 <==> offset + BRAND_SIZE <= width;
    forall row | 0 <= row < BRAND_SIZE
      ensures Offset(width, row, offset) <= Offset(width, last, offset)
    {
      ProductsGrow(row, last, width);
    }
  }

  /** Answers whether every row was copied; the source panics at the first that leaves the canvas. */
  method BlitBrand(canvas: array<Byte>, width: nat, offset: nat, brand: Brand) returns (fits: bool)
    requires canvas.Length == width * WAVEFORM_SIZE * 4
    modifies canvas
    ensures fits <==> offset + BRAND_SIZE <= width
    ensures fits ==> canvas[..] == WithBrand(old(canvas[..]), width, offset, brand)
  {
    hide Row, Column, Offset, BrandByte, Covered;
    BrandFitsIff(width, offset);
    for row := 0 to BRAND_SIZE
      invariant forall r | 0 <= r < row :: Offset(width, r, offset) + BRAND_SIZE * 4 <= canvas.Length
      invariant offset + BRAND_SIZE <= width ==> BlittedBelow(old(canvas[..]), canvas[..], width, offset, brand, row)
    {
      var source, destination := row * BRAND_SIZE * 4, Offset(width, row, offset);
      if destination + BRAND_SIZE * 4 > canvas.Length {
        return false;
      }
      ghost var before := canvas[..];
      CopyRow(canvas, destination, brand, source);
      if offset + BRAND_SIZE <= width {
        NextBrandRow(old(canvas[..]), before, canvas[..], width, offset, brand, row);
      }
    }
    if offset + BRAND_SIZE <= width {
      AllBrandRows(old(canvas[..]), canvas[..], width, offset, brand);
    }
    return true;
  }

  lemma AllBrandRows(canvas: seq<Byte>, now: seq<Byte>, width: nat, offset: nat, brand: Brand)
    requires width > 0 && BlittedBelow(canvas, now, width, offset, brand, BRAND_SIZE)
    ensures now == WithBrand(canvas, width, offset, brand)
  {
    hide Row, Column, BrandByte;
  }

  /** The rows above `rows` show the brand, the others are as they were. */
  ghost predicate BlittedBelow(canvas: seq<Byte>, now: seq<Byte>, width: nat, offset: nat, brand: Brand, rows: nat)
    requires width > 0
  {
    |now| == |canvas| && forall i | 0 <= i < |now| ::
      now[i] == if Row(width, i) < rows && Covered(width, offset, i)
                then (BrandByteInRange(width, offset, i); brand[BrandByte(width, offset, i)])
                else canvas[i]
  }

  lemma NextBrandRow(canvas: seq<Byte>, before: seq<Byte>, after: seq<Byte>, width: nat, offset: nat, brand: Brand, row: nat)
    requires offset + BRAND_SIZE <= width && row < BRAND_SIZE
    requires BlittedBelow(canvas, before, width, offset, brand, row) && |after| == |before|
    requires forall i | 0 <= i < |after| :: after[i] == RowCopied(before, Offset(width, row, offset), brand, row * BRAND_SIZE * 4, i)
    ensures BlittedBelow(canvas, after, width, offset, brand, row + 1)
  {
    hide Row, Column;
    var destination := Offset(width, row, offset);
    forall i | 0 <= i < |after|
      ensures destination <= i < destination + BRAND_SIZE * 4 <==> Row(width, i) == row && Covered(width, offset, i)
      ensures destination <= i < destination + BRAND_SIZE * 4 ==>
        BrandByte(width, offset, i) == row * BRAND_SIZE * 4 + (i - destination)
    {
      BytesOfABrandRow(width, offset, row, i);
    }
  }

  /** Byte `i` of a canvas when one row of the brand has been copied to it. */
  function RowCopied(canvas: seq<Byte>, destination: nat, brand: Brand, source: nat, i: nat): Byte
    requires i < |canvas| && source + BRAND_SIZE * 4 <= |brand|
  {
    if destination <= i < destination + BRAND_SIZE * 4 then brand[source + (i - destination)] else canvas[i]
  }

  /** `copy_from_slice` of one row. */
  method CopyRow(canvas: array<Byte>, destination: nat, brand: Brand, source: nat)
    requires destination + BRAND_SIZE * 4 <= canvas.Length && source + BRAND_SIZE * 4 <= |brand|
    modifies canvas
    ensures forall i | 0 <= i < canvas.Length :: canvas[i] == RowCopied(old(canvas[..]), destination, brand, source, i)
  {
    for k := 0 to BRAND_SIZE * 4
      invariant forall i | 0 <= i < canvas.Length ::
        canvas[i] == if destination <= i < destination + k then brand[source + (i - destination)] else old(canvas[i])
    {
      canvas[destination + k] := brand[source + k];
    }
  }

  // ---- Properties ----

  lemma LitColumns(heights: Heights, row: nat, column: nat)
    ensures Lit(heights, row, column) ==> 1 <= column < WAVEFORM_SIZE - 3 && row < WAVEFORM_SIZE
  {}

  /** Waveform and brand touch different bytes, so the order of drawing does not matter. */
  lemma DrawingsCommute(canvas: seq<Byte>, width: nat, heights: Heights, color: Color, offset: nat, brand: Brand)
    requires width > 0 && offset >= WAVEFORM_SIZE - 3
    ensures WithBrand(WithWaveform(canvas, width, heights, color), width, offset, brand)
            == WithWaveform(WithBrand(canvas, width, offset, brand), width, heights, color)
  {
    hide Row, Column, Lit;
    forall i | 0 <= i < |canvas|
      ensures Lit(heights, Row(width, i), Column(width, i)) ==> !Covered(width, offset, i)
    {
      LitColumns(heights, Row(width, i), Column(width, i));
    }
  }

  function Sum(heights: seq<nat>): nat {
    if heights == [] then 0 else Sum(heights[..|heights| - 1]) + heights[|heights| - 1]
  }

  type Pixel = (nat, nat)

  function LitPixels(heights: Heights, bars: nat): set<Pixel>
    requires bars <= BARS
  {
    set row, column | 0 <= row < WAVEFORM_SIZE && 0 <= column < WAVEFORM_SIZE && LitBelow(heights, bars, row, column) :: (row, column)
  }

  function Block(row: nat, height: nat, column: nat): set<Pixel> {
    set r, c | row <= r < row + height && column <= c < column + 2 :: (r, c)
  }

  lemma {:induction false} BlockSize(row: nat, height: nat, column: nat)
    ensures |Block(row, height, column)| == 2 * height
    decreases height
  {
    if height == 0 {
      assert Block(row, height, column) == {};
    } else {
      BlockSize(row, height - 1, column);
      var last := row + height - 1;
      assert Block(row, height, column) == Block(row, height - 1, column) + {(last, column), (last, column + 1)};
    }
  }

  function BarPixels(heights: Heights, bar: nat): set<Pixel>
    requires bar < BARS
  {
    Block(FirstRow(heights[bar]), heights[bar], 1 + bar * 3)
  }

  lemma BarAddsItsPixels(heights: Heights, bar: nat)
    requires bar < BARS
    ensures LitPixels(heights, bar + 1) == LitPixels(heights, bar) + BarPixels(heights, bar)
  {
    hide FirstRow;
    forall row: nat, column: nat
      ensures LitBelow(heights, bar + 1, row, column) <==> LitBelow(heights, bar, row, column) || (row, column) in BarPixels(heights, bar)
    {
      OneMoreBar(heights, bar, row, column);
    }
    forall row: nat, column: nat | (row, column) in BarPixels(heights, bar)
      ensures row < WAVEFORM_SIZE && column < WAVEFORM_SIZE
    {
      BarOnCanvas(heights, bar, row, column);
    }
    hide LitBelow, BarPixels;
  }

  lemma BarOnCanvas(heights: Heights, bar: nat, row: nat, column: nat)
    requires bar < BARS && (row, column) in BarPixels(heights, bar)
    ensures row < WAVEFORM_SIZE && column < WAVEFORM_SIZE
  {}

  lemma BarsDoNotOverlap(heights: Heights, bar: nat)
    requires bar < BARS
    ensures LitPixels(heights, bar) !! BarPixels(heights, bar)
  {
    hide FirstRow;
  }

  /** Exactly twice the summed heights in pixels is lit: bars do not overlap and none is cut off. */
  lemma {:induction false} LitPixelsAreTwiceTheHeights(heights: Heights, bars: nat)
    requires bars <= BARS
    ensures |LitPixels(heights, bars)| == 2 * Sum(heights[..bars])
    decreases bars
  {
    if bars == 0 {
      assert LitPixels(heights, bars) == {};
    } else {
      hide LitPixels, Block;
      var bar := bars - 1;
      LitPixelsAreTwiceTheHeights(heights, bar);
      assert heights[..bars][..bar] == heights[..bar];
      BlockSize(FirstRow(heights[bar]), heights[bar], 1 + bar * 3);
      BarAddsItsPixels(heights, bar);
      BarsDoNotOverlap(heights, bar);
    }
  }

  // ---- Frames ----

  function StatusWidth(showWaveform: bool, showBrand: bool): nat {
    (if showWaveform then WAVEFORM_SIZE else 0) + (if showBrand then BRAND_SIZE else 0)
    + (if showWaveform && showBrand then BRAND_GAP else 0)
  }

  /** A mix of two levels lies between them, rounded down. */
  lemma MixLiesBetween(low: nat, high: nat, mix: nat)
    requires low <= high && mix <= 255
    ensures low <= (low * (255 - mix) + high * mix) / 255 <= high
    ensures low <= (high * (255 - mix) + low * mix) / 255 <= high
  {
    ProductsGrow(low, high, mix);
    ProductsGrow(low, high, 255 - mix);
    ProductsSplit(low, mix);
    ProductsSplit(high, mix);
  }

  lemma ProductsSplit(x: nat, mix: nat)
    requires mix <= 255
    ensures x * (255 - mix) + x * mix == 255 * x
  {}

  function Blend(adaptive: Byte, red: Byte, mix: Byte): (b: Byte)
    ensures adaptive <= red ==> adaptive <= b <= red
    ensures red <= adaptive ==> red <= b <= adaptive
    ensures var exact := adaptive as int * (255 - mix as int) + red as int * mix as int;
            b as int * 255 <= exact < (b as int + 1) * 255
  {
    var a: nat, r: nat, m: nat := adaptive as int, red as int, mix as int;
    MixLiesBetween(if a <= r then a else r, if a <= r then r else a, m);
    var level := (a * (255 - m) + r * m) / 255;
    level as Byte
  }

  function WaveformColor(foreground: seq<Byte>, mix: Byte): Color
    requires |foreground| == 3
  {
    [Blend(foreground[0], RECORDING_RED[0], mix), Blend(foreground[1], RECORDING_RED[1], mix),
     Blend(foreground[2], RECORDING_RED[2], mix), 255]
  }

  /** What is shown, and in what foreground; the brand mark is what decoding the embedded image gave. */
  datatype Surface = Surface(showWaveform: bool, showBrand: bool, foreground: seq<Byte>, brand: Result<Brand, string>) {
    predicate Drawable() {
      (showWaveform || showBrand) && (showBrand ==> brand.Success?)
    }

    function Width(): nat {
      StatusWidth(showWaveform, showBrand)
    }

    function FrameCount(): nat {
      if showWaveform then |WAVEFORM_HEIGHTS| else 1
    }

    function BrandOffset(): nat {
      if showWaveform then WAVEFORM_SIZE + BRAND_GAP else 0
    }
  }

  function Blank(width: nat): seq<Byte> {
    seq(width * WAVEFORM_SIZE * 4, _ => 0)
  }

  function Frame(surface: Surface, n: nat): seq<Byte>
    requires surface.Drawable() && |surface.foreground| == 3 && n < surface.FrameCount()
  {
    var width := surface.Width();
    var wave := if surface.showWaveform
                then WithWaveform(Blank(width), width, WAVEFORM_HEIGHTS[n], WaveformColor(surface.foreground, RED_MIX[n]))
                else Blank(width);
    if surface.showBrand then WithBrand(wave, width, surface.BrandOffset(), surface.brand.value) else wave
  }

  /** `build_status_frames`: the image of every frame, or an error when there is nothing to draw or no brand mark. */
  method BuildStatusFrames(surface: Surface) returns (frames: Result<seq<seq<Byte>>, string>)
    requires |surface.foreground| == 3
    ensures frames.Success? <==> surface.Drawable()
    ensures frames.Success? ==> |frames.value| == surface.FrameCount()
    ensures frames.Success? ==> forall n | 0 <= n < surface.FrameCount() :: frames.value[n] == Frame(surface, n)
    ensures frames.Success? ==> |frames.value| == (if surface.showWaveform then 8 else 1)
    ensures frames.Success? ==> forall n | 0 <= n < |frames.value| :: IsFrame(surface, n, frames.value[n])
  {
    hide WithWaveform, WithBrand, WaveformColor, Frame, IsFrame;
    if !surface.showWaveform && !surface.showBrand {
      return Failure("status-bar surface needs a waveform or brand mark");
    }
    if surface.showBrand && surface.brand.Failure? {
      return Failure(surface.brand.error);
    }
    var width := surface.Width();
    var icons: seq<seq<Byte>> := [];
    for n := 0 to surface.FrameCount()
      invariant |icons| == n && forall m | 0 <= m < n :: icons[m] == Frame(surface, m)
    {
      var rgba := new Byte[width * WAVEFORM_SIZE * 4](_ => 0);
      assert rgba[..] == Blank(width);
      if surface.showWaveform {
        DrawWaveform(rgba, width, WAVEFORM_HEIGHTS[n], WaveformColor(surface.foreground, RED_MIX[n]));
      }
      if surface.showBrand {
        var _ := BlitBrand(rgba, width, surface.BrandOffset(), surface.brand.value);
      }
      FrameIs(surface, n);
      icons := icons + [rgba[..]];
    }
    forall n | 0 <= n < surface.FrameCount()
      ensures n < 8 && IsFrame(surface, n, icons[n])
    {
      FrameIsShown(surface, n);
    }
    return Success(icons);
  }

  lemma FrameIs(surface: Surface, n: nat)
    requires surface.Drawable() && |surface.foreground| == 3 && n < surface.FrameCount()
    ensures var width := surface.Width();
            var wave := if surface.showWaveform
                        then WithWaveform(Blank(width), width, WAVEFORM_HEIGHTS[n], WaveformColor(surface.foreground, RED_MIX[n]))
                        else Blank(width);
            Frame(surface, n) == if surface.showBrand then WithBrand(wave, width, surface.BrandOffset(), surface.brand.value) else wave
  {
    hide WithWaveform, WithBrand, WaveformColor, Blank;
  }

  /** The alpha of a pixel. */
  function Alpha(frame: seq<Byte>, width: nat, row: nat, column: nat): Byte
    requires |frame| == width * WAVEFORM_SIZE * 4 && row < WAVEFORM_SIZE && column < width
  {
    PixelInRange(width, WAVEFORM_SIZE, row, column);
    frame[Offset(width, row, column) + 3]
  }

  lemma AlphaIsAt(width: nat, row: nat, column: nat)
    requires row < WAVEFORM_SIZE && column < width
    ensures var i := Offset(width, row, column) + 3;
            i < width * WAVEFORM_SIZE * 4 && i % 4 == 3 && Row(width, i) == row && Column(width, i) == column
  {
    PixelInRange(width, WAVEFORM_SIZE, row, column);
    BytesOfAPixel(width, row, column, Offset(width, row, column) + 3);
  }

  lemma AlphaOfWaveform(canvas: seq<Byte>, width: nat, heights: Heights, color: Color, row: nat, column: nat)
    requires |canvas| == width * WAVEFORM_SIZE * 4 && row < WAVEFORM_SIZE && column < width
    ensures Alpha(WithWaveform(canvas, width, heights, color), width, row, column)
            == if Lit(heights, row, column) then color[3] else Alpha(canvas, width, row, column)
  {
    hide Row, Column, Lit, Offset;
    AlphaIsAt(width, row, column);
  }

  lemma AlphaBesideBrand(canvas: seq<Byte>, width: nat, offset: nat, brand: Brand, row: nat, column: nat)
    requires |canvas| == width * WAVEFORM_SIZE * 4 && row < WAVEFORM_SIZE && column < width && column < offset
    ensures Alpha(WithBrand(canvas, width, offset, brand), width, row, column) == Alpha(canvas, width, row, column)
  {
    hide Row, Column, Offset;
    AlphaIsAt(width, row, column);
  }

  lemma BlankIsClear(width: nat, row: nat, column: nat)
    requires row < WAVEFORM_SIZE && column < width
    ensures Alpha(Blank(width), width, row, column) == 0
  {
    AlphaIsAt(width, row, column);
  }

  lemma FrameSize(surface: Surface, n: nat)
    requires surface.Drawable() && |surface.foreground| == 3 && n < surface.FrameCount()
    ensures |Frame(surface, n)| == surface.Width() * WAVEFORM_SIZE * 4 && WAVEFORM_SIZE <= surface.Width()
  {}

  /** On every frame the waveform's square is opaque just where a bar is lit, whether or not the brand is shown. */
  lemma WaveformIsOpaqueWhereLit(surface: Surface, n: nat, row: nat, column: nat)
    requires surface.Drawable() && |surface.foreground| == 3 && n < |WAVEFORM_HEIGHTS| && surface.showWaveform
    requires row < WAVEFORM_SIZE && column < WAVEFORM_SIZE
    ensures |Frame(surface, n)| == surface.Width() * WAVEFORM_SIZE * 4 && WAVEFORM_SIZE <= surface.Width()
    ensures Alpha(Frame(surface, n), surface.Width(), row, column) == if Lit(WAVEFORM_HEIGHTS[n], row, column) then 255 else 0
  {
    FrameSize(surface, n);
    hide Alpha, Lit, WithWaveform, WithBrand, Blend, Blank;
    var width, heights, color := surface.Width(), WAVEFORM_HEIGHTS[n], WaveformColor(surface.foreground, RED_MIX[n]);
    BlankIsClear(width, row, column);
    BlankSize(width);
    AlphaOfWaveform(Blank(width), width, heights, color, row, column);
    if surface.showBrand {
      WaveformSize(Blank(width), width, heights, color);
      AlphaBesideBrand(WithWaveform(Blank(width), width, heights, color), width, surface.BrandOffset(), surface.brand.value, row, column);
    }
  }

  lemma BlankSize(width: nat)
    ensures |Blank(width)| == width * WAVEFORM_SIZE * 4
  {}

  lemma WaveformSize(canvas: seq<Byte>, width: nat, heights: Heights, color: Color)
    requires width > 0
    ensures |WithWaveform(canvas, width, heights, color)| == |canvas|
  {}

  function OpaquePixels(frame: seq<Byte>, width: nat): set<Pixel>
    requires |frame| == width * WAVEFORM_SIZE * 4 && WAVEFORM_SIZE <= width
  {
    set row: nat, column: nat | row < WAVEFORM_SIZE && column < WAVEFORM_SIZE && Alpha(frame, width, row, column) == 255
      :: (row, column)
  }

  /** So every frame shows exactly twice the summed heights of its bars in opaque pixels of the waveform's square. */
  lemma OpaquePixelsAreTwiceTheHeights(surface: Surface, n: nat)
    requires surface.Drawable() && |surface.foreground| == 3 && n < |WAVEFORM_HEIGHTS| && surface.showWaveform
    ensures |Frame(surface, n)| == surface.Width() * WAVEFORM_SIZE * 4 && WAVEFORM_SIZE <= surface.Width()
    ensures |OpaquePixels(Frame(surface, n), surface.Width())| == 2 * Sum(WAVEFORM_HEIGHTS[n])
  {
    FrameSize(surface, n);
    hide Frame, Alpha;
    var heights := WAVEFORM_HEIGHTS[n];
    forall row: nat, column: nat | row < WAVEFORM_SIZE && column < WAVEFORM_SIZE
      ensures Alpha(Frame(surface, n), surface.Width(), row, column) == 255 <==> Lit(heights, row, column)
    {
      WaveformIsOpaqueWhereLit(surface, n, row, column);
    }
    assert OpaquePixels(Frame(surface, n), surface.Width()) == LitPixels(heights, BARS);
    LitPixelsAreTwiceTheHeights(heights, BARS);
    assert heights[..BARS] == heights;
  }

  /** The columns of the gap and whatever the brand covers are the brand's alone. */
  lemma BrandShowsUnchanged(surface: Surface, n: nat, i: nat)
    requires surface.Drawable() && |surface.foreground| == 3 && n < surface.FrameCount() && surface.showBrand
    requires i < |Frame(surface, n)|
    ensures |Frame(surface, n)| == surface.Width() * WAVEFORM_SIZE * 4
    ensures var column, offset := Column(surface.Width(), i), surface.BrandOffset();
            && (column >= offset ==> BrandByte(surface.Width(), offset, i) < |surface.brand.value|
                                     && Frame(surface, n)[i] == surface.brand.value[BrandByte(surface.Width(), offset, i)])
            && (offset - BRAND_GAP <= column < offset ==> Frame(surface, n)[i] == 0)
  {
    hide Lit, Blend, Row, Column;
    var width, offset := surface.Width(), surface.BrandOffset();
    RowInRange(width, WAVEFORM_SIZE, i);
    if Column(width, i) >= offset {
      BrandByteInRange(width, offset, i);
    }
    if surface.showWaveform {
      LitColumns(WAVEFORM_HEIGHTS[n], Row(width, i), Column(width, i));
    }
  }

  // ---- A frame, pixel by pixel ----

  /** How high each of the five bars stands on the eight frames. */
  ghost const BARS_OVER_TIME: seq<seq<nat>> := [
    [4, 6, 10, 6, 4, 12, 16, 8],
    [8, 12, 6, 12, 10, 6, 10, 14],
    [14, 8, 4, 16, 16, 10, 6, 10],
    [8, 16, 12, 12, 8, 16, 12, 6],
    [4, 6, 16, 6, 12, 8, 4, 12]
  ]

  /** Two columns for each bar, centred in the eighteen rows. */
  ghost predicate BarStands(n: nat, row: nat, column: nat)
    requires n < 8
  {
    exists bar: nat | bar < 5 ::
      (column == 1 + 3 * bar || column == 2 + 3 * bar)
      && 18 - BARS_OVER_TIME[bar][n] <= 2 * row < 18 + BARS_OVER_TIME[bar][n]
  }

  /** The red rises in quarters up to the fifth frame and falls in quarters again. */
  ghost function RedOf(n: nat): nat
    requires n < 8
  {
    if n == 4 then 255 else if n < 4 then 64 * n else 64 * (8 - n)
  }

  /** A level of the foreground with that much of the recording's red in it. */
  ghost function Reddened(level: nat, channel: nat, n: nat): int
    requires n < 8 && channel < 3
  {
    (level * (255 - RedOf(n)) + [215, 68, 56][channel] * RedOf(n)) / 255
  }

  /** One byte of a pixel: the bars in a mix of the foreground and a red, the brand behind them, and nothing elsewhere. */
  ghost function PixelByte(surface: Surface, n: nat, row: nat, column: nat, channel: nat): int
    requires surface.Drawable() && |surface.foreground| == 3 && n < 8 && row < 18 && channel < 4
    requires column < (if surface.showWaveform && surface.showBrand then 39 else 18)
  {
    var offset := if surface.showWaveform then 21 else 0;
    if surface.showWaveform && BarStands(n, row, column) then
      if channel == 3 then 255
      else Reddened(surface.foreground[channel] as int, channel, n)
    else if surface.showBrand && column >= offset then
      var i := (row * 18 + (column - offset)) * 4 + channel;
      if i < |surface.brand.value| then surface.brand.value[i] as int else 0
    else 0
  }

  /** Eighteen rows, eighteen columns for each part that is shown, and three between them. */
  ghost predicate IsFrame(surface: Surface, n: nat, frame: seq<Byte>)
    requires surface.Drawable() && |surface.foreground| == 3 && n < 8
  {
    var width := if surface.showWaveform && surface.showBrand then 39 else 18;
    && |frame| == width * 18 * 4
    && forall row: nat, column: nat, channel: nat | row < 18 && column < width && channel < 4 ::
         PlaceOf(width, row, column, channel) < |frame|
         && frame[PlaceOf(width, row, column, channel)] as int == PixelByte(surface, n, row, column, channel)
  }

  ghost function PlaceOf(width: nat, row: nat, column: nat, channel: nat): nat {
    (row * width + column) * 4 + channel
  }

  lemma BarsStand(n: nat, row: nat, column: nat)
    requires n < 8 && row < 18
    ensures Lit(WAVEFORM_HEIGHTS[n], row, column) <==> BarStands(n, row, column)
  {
    forall bar: nat | bar < 5
      ensures BARS_OVER_TIME[bar][n] == WAVEFORM_HEIGHTS[n][bar]
      ensures InBar(WAVEFORM_HEIGHTS[n], bar, row, column) <==>
                (column == 1 + 3 * bar || column == 2 + 3 * bar)
                && 18 - BARS_OVER_TIME[bar][n] <= 2 * row < 18 + BARS_OVER_TIME[bar][n]
    {
      HeightsOverTime(n, bar);
    }
  }

  lemma HeightsOverTime(n: nat, bar: nat)
    requires n < 8 && bar < 5
    ensures BARS_OVER_TIME[bar][n] == WAVEFORM_HEIGHTS[n][bar] && WAVEFORM_HEIGHTS[n][bar] % 2 == 0
  {}

  lemma ColorIsMixed(surface: Surface, n: nat, channel: nat)
    requires |surface.foreground| == 3 && n < 8 && channel < 4
    ensures WaveformColor(surface.foreground, RED_MIX[n])[channel] as int
            == if channel == 3 then 255 else Reddened(surface.foreground[channel] as int, channel, n)
  {
    assert RED_MIX[n] as int == RedOf(n);
    if channel < 3 {
      var f, r, m: nat := surface.foreground[channel] as int, RECORDING_RED[channel] as int, RED_MIX[n] as int;
      QuotientIsUnique(Blend(surface.foreground[channel], RECORDING_RED[channel], RED_MIX[n]) as int, f * (255 - m) + r * m);
    }
  }

  lemma QuotientIsUnique(q: nat, x: nat)
    requires q * 255 <= x < (q + 1) * 255
    ensures q == x / 255
  {}

  /** Every frame that is built is this image. */
  lemma FrameIsShown(surface: Surface, n: nat)
    requires surface.Drawable() && |surface.foreground| == 3 && n < surface.FrameCount()
    ensures n < 8 && IsFrame(surface, n, Frame(surface, n))
  {
    hide WithWaveform, WithBrand, WaveformColor, PixelByte, Blank, Frame;
    FrameSize(surface, n);
    var width := surface.Width();
    var frame := Frame(surface, n);
    forall row: nat, column: nat, channel: nat | row < 18 && column < width && channel < 4
      ensures PlaceOf(width, row, column, channel) < |frame|
              && frame[PlaceOf(width, row, column, channel)] as int == PixelByte(surface, n, row, column, channel)
    {
      ByteIsShown(surface, n, row, column, channel);
    }
  }

  lemma PlaceIs(width: nat, row: nat, column: nat, channel: nat)
    requires row < 18 && column < width && channel < 4
    ensures var i := PlaceOf(width, row, column, channel);
            i < width * WAVEFORM_SIZE * 4 && i % 4 == channel && Row(width, i) == row && Column(width, i) == column
  {
    PixelInRange(width, WAVEFORM_SIZE, row, column);
    BytesOfAPixel(width, row, column, PlaceOf(width, row, column, channel));
  }

  lemma WaveAt(width: nat, heights: Heights, color: Color, row: nat, column: nat, channel: nat)
    requires row < 18 && column < width && channel < 4
    ensures var i, canvas := PlaceOf(width, row, column, channel), WithWaveform(Blank(width), width, heights, color);
            i < |canvas| && canvas[i] == if Lit(heights, row, column) then color[channel] else 0
  {
    PlaceIs(width, row, column, channel);
    hide Row, Column, Lit, PlaceOf;
  }

  lemma BlankAt(width: nat, row: nat, column: nat, channel: nat)
    requires row < 18 && column < width && channel < 4
    ensures var i := PlaceOf(width, row, column, channel); i < |Blank(width)| && Blank(width)[i] == 0
  {
    PlaceIs(width, row, column, channel);
    hide PlaceOf;
  }

  lemma BrandAt(canvas: seq<Byte>, width: nat, offset: nat, brand: Brand, row: nat, column: nat, channel: nat)
    requires |canvas| == width * WAVEFORM_SIZE * 4 && row < 18 && column < width && channel < 4 && width <= offset + 18
    ensures var i, after := PlaceOf(width, row, column, channel), WithBrand(canvas, width, offset, brand);
            && i < |after| == |canvas|
            && (column < offset ==> after[i] == canvas[i])
            && (column >= offset ==> var k := (row * 18 + (column - offset)) * 4 + channel; k < |brand| && after[i] == brand[k])
  {
    var i := PlaceOf(width, row, column, channel);
    PlaceIs(width, row, column, channel);
    hide Row, Column, PlaceOf;
    if column >= offset {
      BrandByteInRange(width, offset, i);
    }
  }

  lemma ByteIsShown(surface: Surface, n: nat, row: nat, column: nat, channel: nat)
    requires surface.Drawable() && |surface.foreground| == 3 && n < surface.FrameCount()
    requires row < 18 && column < surface.Width() && channel < 4
    ensures var i := PlaceOf(surface.Width(), row, column, channel);
            i < |Frame(surface, n)| && Frame(surface, n)[i] as int == PixelByte(surface, n, row, column, channel)
  {
    var width, offset := surface.Width(), surface.BrandOffset();
    FrameIs(surface, n);
    BarsStand(n, row, column);
    ColorIsMixed(surface, n, channel);
    LitColumns(WAVEFORM_HEIGHTS[n], row, column);
    hide Lit, BarStands, WaveformColor, RedOf, Reddened, PlaceOf, Blank, WithWaveform, WithBrand, Frame;
    var heights, color := WAVEFORM_HEIGHTS[n], WaveformColor(surface.foreground, RED_MIX[n]);
    WaveAt(width, heights, color, row, column, channel);
    BlankAt(width, row, column, channel);
    BlankSize(width);
    WaveformSize(Blank(width), width, heights, color);
    if surface.showBrand {
      BrandAt(if surface.showWaveform then WithWaveform(Blank(width), width, heights, color) else Blank(width),
              width, offset, surface.brand.value, row, column, channel);
    }
  }
}
