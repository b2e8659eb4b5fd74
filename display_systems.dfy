/** The display systems: the encoder that turns a grayscale render image into
    a string of Unicode Braille characters, one per 2-by-4 block of pixels,
    and the rule that sizes the render image after a terminal resize. */
module DisplaySystems {
  import opened InputEvents
  import opened Wrappers

  const BRAILLE_CODE_MIN: int := 0x2800
  const BRAILLE_CODE_MAX: int := 0x28FF

  /** The Braille dot that sub-pixel `offsetX * 4 + offsetY` of a cell
      lights, as a bit of the mask. The dots are numbered
        0 3
        1 4
        2 5
        6 7
      so the table is not the identity. */
  const BRAILLE_DOT_BIT_POSITIONS: seq<bv8> := [0, 1, 2, 6, 3, 4, 5, 7]

  /** The outcome of `braille_char`: a character, or the panic it raises. */
  datatype Converted = Character(value: char) | Panic(message: string)

  /** `char::from_u32`: no character for a surrogate or a value past the
      last Unicode scalar value. */
  function CharFromU32(n: nat): (r: Option<char>)
    ensures r.Some? <==> n < 0xD800 || 0xE000 <= n <= 0x10FFFF
    ensures r.Some? ==> r.value as int == n
  {
    if n < 0xD800 || 0xE000 <= n <= 0x10FFFF then Some(n as char) else None
  }

  /** `braille_char`: the code point is the base of the Braille Patterns
      block plus the mask (a `u16` sum), and neither panic is reachable for
      any 8-bit mask. */
  function BrailleChar(mask: bv8): (r: Converted)
    ensures r.Character?
    ensures r.value as int == BRAILLE_CODE_MIN + mask as int
    ensures BRAILLE_CODE_MIN <= r.value as int <= BRAILLE_CODE_MAX
  {
    var code := (BRAILLE_CODE_MIN + mask as int) % 0x1_0000;
    match CharFromU32(code)
    case Some(character) =>
      if (character as int) % 0x1_0000 > BRAILLE_CODE_MAX then Panic("Number too big!")
      else Character(character)
    case None => Panic("Error converting character!")
  }

  /** A grayscale image as the encoder sees it: one byte per pixel, row by
      row. */
  predicate WellFormed(width: nat, height: nat, data: seq<bv8>)
  {
    |data| == width * height
  }

  lemma PixelIndexInBounds(width: nat, height: nat, x: nat, y: nat)
    requires x < width && y < height
    ensures y * width + x < width * height
  {
    assert y * width + x < (y + 1) * width;
    assert (y + 1) * width <= height * width by {
      MulMonotone(y + 1, height, width);
    }
  }

  lemma MulMonotone(a: nat, b: nat, c: nat)
    requires a <= b
    ensures a * c <= b * c
  {
  }

  /** `y * width + x`, the position of pixel (`x`, `y`) in the buffer. */
  function PixelIndex(width: nat, height: nat, x: nat, y: nat): (index: nat)
    requires x < width && y < height
    ensures index < width * height
  {
    PixelIndexInBounds(width, height, x, y);
    y * width + x
  }

  /** A pixel is lit when it lies inside the image and its byte is exactly
      0xFF; a pixel past the right or bottom edge is unlit and is not read. */
  predicate Lit(width: nat, height: nat, data: seq<bv8>, x: nat, y: nat)
    requires WellFormed(width, height, data)
  {
    x < width && y < height &&
    data[PixelIndex(width, height, x, y)] == 0xFF
  }

  /** Whether sub-pixel `k` of the cell whose top-left pixel is (`cellX`,
      `cellY`) is lit: sub-pixels 0 to 3 are the left column top to bottom,
      4 to 7 the right column, so `k == offsetX * 4 + offsetY`. */
  predicate SubPixelLit(width: nat, height: nat, data: seq<bv8>, cellX: nat, cellY: nat, k: nat)
    requires WellFormed(width, height, data)
  {
    if k < 4 then Lit(width, height, data, cellX, cellY + k)
    else Lit(width, height, data, cellX + 1, cellY + k - 4)
  }

  /** The mask bit that sub-pixel `k` sets: `1 << BRAILLE_DOT_BIT_POSITIONS[k]`. */
  function DotBit(k: nat): bv8
    requires k < 8
  {
    1 << BRAILLE_DOT_BIT_POSITIONS[k]
  }

  /** The mask after the first `k` sub-pixels of a cell have been visited,
      in the encoder's order: column by column, top to bottom. */
  function MaskPrefix(width: nat, height: nat, data: seq<bv8>, cellX: nat, cellY: nat, k: nat): bv8
    requires WellFormed(width, height, data) && k <= 8
  {
    if k == 0 then 0
    else
      var mask := MaskPrefix(width, height, data, cellX, cellY, k - 1);
      if SubPixelLit(width, height, data, cellX, cellY, k - 1)
      then mask | DotBit(k - 1)
      else mask
  }

  /** The mask of the cell whose top-left pixel is (`cellX`, `cellY`). */
  function CellMask(width: nat, height: nat, data: seq<bv8>, cellX: nat, cellY: nat): bv8
    requires WellFormed(width, height, data)
  {
    MaskPrefix(width, height, data, cellX, cellY, 8)
  }

  /** The table gives each of the eight sub-pixels its own bit. */
  lemma DotBitsDistinct(j: nat, k: nat)
    requires j < 8 && k < 8 && j != k
    ensures BRAILLE_DOT_BIT_POSITIONS[j] != BRAILLE_DOT_BIT_POSITIONS[k]
  {
  }

  /** Bit `BRAILLE_DOT_BIT_POSITIONS[j]` of the mask after `k` sub-pixels is
      set exactly when sub-pixel `j` has been visited and is lit. */
  lemma {:induction false} MaskPrefixBit(width: nat, height: nat, data: seq<bv8>, cellX: nat, cellY: nat, k: nat, j: nat)
    requires WellFormed(width, height, data) && k <= 8 && j < 8
    ensures (MaskPrefix(width, height, data, cellX, cellY, k) >> BRAILLE_DOT_BIT_POSITIONS[j]) & 1 == 1
            <==> j < k && SubPixelLit(width, height, data, cellX, cellY, j)
  {
    if k > 0 {
      MaskPrefixBit(width, height, data, cellX, cellY, k - 1, j);
      if j != k - 1 {
        DotBitsDistinct(j, k - 1);
      }
      var mask := MaskPrefix(width, height, data, cellX, cellY, k - 1);
      var p := BRAILLE_DOT_BIT_POSITIONS[j];
      var q := BRAILLE_DOT_BIT_POSITIONS[k - 1];
      assert p < 8 && q < 8;
      BitOfOr(mask, p, q);
    }
  }

  lemma BitOfOr(mask: bv8, p: bv8, q: bv8)
    requires p < 8 && q < 8
    ensures ((mask | (1 << q)) >> p) & 1 == 1 <==> (mask >> p) & 1 == 1 || p == q
  {
  }

  /** Bit `BRAILLE_DOT_BIT_POSITIONS[k]` of a cell's mask is set exactly when
      sub-pixel `k` is lit, so every dot of the cell's glyph is raised
      exactly when its pixel is in the image and is 0xFF. */
  lemma CellMaskBit(width: nat, height: nat, data: seq<bv8>, cellX: nat, cellY: nat, k: nat)
    requires WellFormed(width, height, data) && k < 8
    ensures (CellMask(width, height, data, cellX, cellY) >> BRAILLE_DOT_BIT_POSITIONS[k]) & 1 == 1
            <==> SubPixelLit(width, height, data, cellX, cellY, k)
  {
    MaskPrefixBit(width, height, data, cellX, cellY, 8, k);
  }

  /** A cell with all eight sub-pixels lit is U+28FF; one with none lit
      (every byte below 0xFF, or past the edge) is U+2800. */
  lemma FullAndEmptyCells(width: nat, height: nat, data: seq<bv8>, cellX: nat, cellY: nat)
    requires WellFormed(width, height, data)
    ensures (forall k :: 0 <= k < 8 ==> SubPixelLit(width, height, data, cellX, cellY, k))
            ==> BrailleChar(CellMask(width, height, data, cellX, cellY)).value == '⣿'
    ensures (forall k :: 0 <= k < 8 ==> !SubPixelLit(width, height, data, cellX, cellY, k))
            ==> BrailleChar(CellMask(width, height, data, cellX, cellY)).value == '⠀'
  {
    var mask := CellMask(width, height, data, cellX, cellY);
    forall k | 0 <= k < 8
      ensures (mask >> BRAILLE_DOT_BIT_POSITIONS[k]) & 1 == 1 <==> SubPixelLit(width, height, data, cellX, cellY, k)
    {
      MaskPrefixBit(width, height, data, cellX, cellY, 8, k);
    }
    AllBits(mask);
  }

  /** An 8-bit mask is determined by its eight bits, visited in table order. */
  lemma AllBits(mask: bv8)
    ensures (forall k :: 0 <= k < 8 ==> (mask >> BRAILLE_DOT_BIT_POSITIONS[k]) & 1 == 1) ==> mask == 0xFF
    ensures (forall k :: 0 <= k < 8 ==> (mask >> BRAILLE_DOT_BIT_POSITIONS[k]) & 1 != 1) ==> mask == 0
  {
    var t := BRAILLE_DOT_BIT_POSITIONS;
    assert t[0] == 0 && t[1] == 1 && t[2] == 2 && t[3] == 6 && t[4] == 3 && t[5] == 4 && t[6] == 5 && t[7] == 7;
  }

  /** The number of glyphs per row and of glyph rows: `step_by(2)` over the
      width and `step_by(4)` over the height, rounding up. */
  function CellColumns(width: nat): nat { (width + 1) / 2 }

  function CellRows(height: nat): nat { (height + 3) / 4 }

  /** The glyph of the cell whose top-left pixel is (`cellX`, `cellY`). */
  function Glyph(width: nat, height: nat, data: seq<bv8>, cellX: nat, cellY: nat): char
    requires WellFormed(width, height, data)
  {
    BrailleChar(CellMask(width, height, data, cellX, cellY)).value
  }

  /** The first `n` glyphs of the glyph row whose top pixel row is `cellY`. */
  function RowGlyphs(width: nat, height: nat, data: seq<bv8>, cellY: nat, n: nat): seq<char>
    requires WellFormed(width, height, data)
  {
    if n == 0 then []
    else RowGlyphs(width, height, data, cellY, n - 1) + [Glyph(width, height, data, 2 * (n - 1), cellY)]
  }

  /** The glyphs of the first `rows` glyph rows, row after row, without
      separators. */
  function RowsGlyphs(width: nat, height: nat, data: seq<bv8>, rows: nat): seq<char>
    requires WellFormed(width, height, data)
  {
    if rows == 0 then []
    else RowsGlyphs(width, height, data, rows - 1) + RowGlyphs(width, height, data, 4 * (rows - 1), CellColumns(width))
  }

  /** The string the encoder produces for a whole image. */
  function Encode(width: nat, height: nat, data: seq<bv8>): seq<char>
    requires WellFormed(width, height, data)
  {
    RowsGlyphs(width, height, data, CellRows(height))
  }

  lemma MulSucc(a: nat, c: nat)
    ensures (a + 1) * c == a * c + c
  {
  }

  lemma CellIndexBound(row: nat, rows: nat, column: nat, columns: nat)
    requires row < rows && column < columns
    ensures row * columns + column < rows * columns
  {
    MulSucc(row, columns);
    MulMonotone(row + 1, rows, columns);
  }

  lemma {:induction false} RowGlyphsLength(width: nat, height: nat, data: seq<bv8>, cellY: nat, n: nat)
    requires WellFormed(width, height, data)
    ensures |RowGlyphs(width, height, data, cellY, n)| == n
  {
    if n > 0 {
      RowGlyphsLength(width, height, data, cellY, n - 1);
    }
  }

  lemma {:induction false} RowGlyphsAt(width: nat, height: nat, data: seq<bv8>, cellY: nat, n: nat, i: nat)
    requires WellFormed(width, height, data) && i < n
    ensures |RowGlyphs(width, height, data, cellY, n)| == n
    ensures RowGlyphs(width, height, data, cellY, n)[i] == Glyph(width, height, data, 2 * i, cellY)
  {
    RowGlyphsLength(width, height, data, cellY, n);
    RowGlyphsLength(width, height, data, cellY, n - 1);
    if i < n - 1 {
      RowGlyphsAt(width, height, data, cellY, n - 1, i);
    }
  }

  lemma {:induction false} RowsGlyphsLength(width: nat, height: nat, data: seq<bv8>, rows: nat)
    requires WellFormed(width, height, data)
    ensures |RowsGlyphs(width, height, data, rows)| == rows * CellColumns(width)
  {
    if rows > 0 {
      RowsGlyphsLength(width, height, data, rows - 1);
      RowGlyphsLength(width, height, data, 4 * (rows - 1), CellColumns(width));
      MulSucc(rows - 1, CellColumns(width));
    }
  }

  lemma {:induction false} RowsGlyphsAt(width: nat, height: nat, data: seq<bv8>, rows: nat, row: nat, column: nat)
    requires WellFormed(width, height, data) && row < rows && column < CellColumns(width)
    ensures row * CellColumns(width) + column < |RowsGlyphs(width, height, data, rows)|
    ensures RowsGlyphs(width, height, data, rows)[row * CellColumns(width) + column]
            == Glyph(width, height, data, 2 * column, 4 * row)
  {
    var columns := CellColumns(width);
    RowsGlyphsLength(width, height, data, rows);
    RowsGlyphsLength(width, height, data, rows - 1);
    CellIndexBound(row, rows, column, columns);
    RowGlyphsAt(width, height, data, 4 * (rows - 1), columns, column);
    if row < rows - 1 {
      CellIndexBound(row, rows - 1, column, columns);
      RowsGlyphsAt(width, height, data, rows - 1, row, column);
    }
  }

  /** The output holds exactly one glyph per 2-by-4 cell, ceil(W/2) per row
      and ceil(H/4) rows, in row-major order; the glyph of a cell is the
      Braille character of the cell's mask, and bit
      `BRAILLE_DOT_BIT_POSITIONS[dx*4+dy]` of that mask is set exactly when
      pixel (2*column+dx, 4*row+dy) is in the image and is 0xFF. */
  lemma EncodeAt(width: nat, height: nat, data: seq<bv8>, row: nat, column: nat, dx: nat, dy: nat)
    requires WellFormed(width, height, data)
    requires row < CellRows(height) && column < CellColumns(width) && dx < 2 && dy < 4
    ensures |Encode(width, height, data)| == CellRows(height) * CellColumns(width)
    ensures row * CellColumns(width) + column < |Encode(width, height, data)|
    ensures Encode(width, height, data)[row * CellColumns(width) + column]
            == BrailleChar(CellMask(width, height, data, 2 * column, 4 * row)).value
    ensures (CellMask(width, height, data, 2 * column, 4 * row) >> BRAILLE_DOT_BIT_POSITIONS[dx * 4 + dy]) & 1 == 1
            <==> Lit(width, height, data, 2 * column + dx, 4 * row + dy)
  {
    RowsGlyphsLength(width, height, data, CellRows(height));
    RowsGlyphsAt(width, height, data, CellRows(height), row, column);
    CellMaskBit(width, height, data, 2 * column, 4 * row, dx * 4 + dy);
  }

  /** `i` falls in cell row `i / columns`, column `i % columns`. */
  lemma CellOfIndex(i: nat, rows: nat, columns: nat)
    requires i < rows * columns
    ensures columns > 0 && i / columns < rows && i % columns < columns
    ensures i == (i / columns) * columns + i % columns
  {
    if i / columns >= rows {
      MulMonotone(rows, i / columns, columns);
    }
  }

  /** An image with no byte equal to 0xFF encodes to blank Braille cells
      (U+2800) only. */
  lemma DarkImageIsBlank(width: nat, height: nat, data: seq<bv8>, i: nat)
    requires WellFormed(width, height, data)
    requires forall j :: 0 <= j < |data| ==> data[j] != 0xFF
    requires i < |Encode(width, height, data)|
    ensures Encode(width, height, data)[i] == '⠀'
  {
    var columns := CellColumns(width);
    RowsGlyphsLength(width, height, data, CellRows(height));
    CellOfIndex(i, CellRows(height), columns);
    var row, column := i / columns, i % columns;
    RowsGlyphsAt(width, height, data, CellRows(height), row, column);
    forall k | 0 <= k < 8
      ensures !SubPixelLit(width, height, data, 2 * column, 4 * row, k)
    {
    }
    FullAndEmptyCells(width, height, data, 2 * column, 4 * row);
  }

  /** `(0..total).step_by(step)` runs `count` times when the count-th step is
      the first to reach `total`. */
  lemma StepCount(total: nat, step: nat, count: nat)
    requires step == 2 || step == 4
    requires total <= step * count <= total + step - 1
    ensures count == (total + step - 1) / step
  {
  }

  /** The two innermost loops of the encoder: visit the eight sub-pixels of
      the cell whose top-left pixel is (`characterX`, `characterY`), column
      by column, and set the cell's bit for each lit one. */
  method CellMaskOf(width: nat, height: nat, data: seq<bv8>, characterX: nat, characterY: nat) returns (mask: bv8)
    requires WellFormed(width, height, data)
    ensures mask == CellMask(width, height, data, characterX, characterY)
  {
    mask := 0;
    ghost var k := 0;
    for offsetX := 0 to 2
      invariant k == offsetX * 4
      invariant mask == MaskPrefix(width, height, data, characterX, characterY, k)
    {
      for offsetY := 0 to 4
        invariant k == offsetX * 4 + offsetY
        invariant mask == MaskPrefix(width, height, data, characterX, characterY, k)
      {
        var x := characterX + offsetX;
        var y := characterY + offsetY;
        var lit := x < width && y < height && data[PixelIndex(width, height, x, y)] == 0xFF;
        assert lit == SubPixelLit(width, height, data, characterX, characterY, k);
        if lit {
          mask := mask | DotBit(offsetX * 4 + offsetY);
        }
        k := k + 1;
      }
    }
  }

  /** The encoder loop of `print_to_terminal`: cell rows top to bottom in
      steps of four pixel rows, cells left to right in steps of two pixel
      columns, and within a cell the eight sub-pixels column by column. */
  method EncodeImage(width: nat, height: nat, data: seq<bv8>) returns (output: seq<char>)
    requires WellFormed(width, height, data)
    ensures output == Encode(width, height, data)
  {
    output := [];
    var characterY := 0;
    ghost var row := 0;
    while characterY < height
      invariant characterY == 4 * row && characterY <= height + 3
      invariant output == RowsGlyphs(width, height, data, row)
    {
      ghost var before := output;
      var characterX := 0;
      ghost var column := 0;
      while characterX < width
        invariant characterX == 2 * column && characterX <= width + 1
        invariant output == before + RowGlyphs(width, height, data, characterY, column)
      {
        var mask := CellMaskOf(width, height, data, characterX, characterY);
        output := output + [BrailleChar(mask).value];
        characterX, column := characterX + 2, column + 1;
      }
      StepCount(width, 2, column);
      characterY, row := characterY + 4, row + 1;
    }
    StepCount(height, 4, row);
  }

  /** The render-image size `resize_handling` sets for a terminal of
      `columns` by `rows` characters: two pixels per column, four per row, so
      that the encoder's output fills the terminal exactly, one glyph per
      character cell. The product of a `u16` and 4 always fits a `u32`. */
  function ResizeTarget(columns: U16, rows: U16): (size: (nat, nat))
    ensures size.0 < 0x1_0000_0000 && size.1 < 0x1_0000_0000
    ensures CellColumns(size.0) == columns && CellRows(size.1) == rows
    ensures size.0 % 2 == 0 && size.1 % 4 == 0
  {
    (columns * 2, rows * 4)
  }

  /** The size of the render images after `resize_handling` has read
      `events`: the last resize wins; without one, nothing is resized. */
  function SizeAfter(size: (nat, nat), events: seq<Event>): (nat, nat)
  {
    if events == [] then size
    else
      var last := events[|events| - 1];
      if last.Resize? then ResizeTarget(last.columns, last.rows)
      else SizeAfter(size, events[..|events| - 1])
  }

  /** `resize_handling`: for every resize event, every render image is
      resized to the target of that event. */
  method ResizeHandling(events: seq<Event>, sizes: seq<(nat, nat)>) returns (resized: seq<(nat, nat)>)
    ensures |resized| == |sizes|
    ensures forall i :: 0 <= i < |sizes| ==> resized[i] == SizeAfter(sizes[i], events)
  {
    resized := sizes;
    for e := 0 to |events|
      invariant |resized| == |sizes|
      invariant forall i :: 0 <= i < |sizes| ==> resized[i] == SizeAfter(sizes[i], events[..e])
    {
      assert events[..e + 1][..e] == events[..e];
      if events[e].Resize? {
        var target := ResizeTarget(events[e].columns, events[e].rows);
        for s := 0 to |resized|
          invariant |resized| == |sizes|
          invariant forall i :: 0 <= i < s ==> resized[i] == target
          invariant forall i :: s <= i < |sizes| ==> resized[i] == SizeAfter(sizes[i], events[..e])
        {
          resized := resized[s := target];
        }
      }
    }
    assert events[..|events|] == events;
  }

  /** A resize with no pixel rounding: after a resize to `columns` by `rows`,
      re-encoding the render image gives one glyph per terminal cell. */
  lemma ResizedImageFillsTerminal(columns: U16, rows: U16, data: seq<bv8>)
    requires |data| == 8 * columns * rows
    ensures WellFormed(ResizeTarget(columns, rows).0, ResizeTarget(columns, rows).1, data)
    ensures |Encode(ResizeTarget(columns, rows).0, ResizeTarget(columns, rows).1, data)| == columns * rows
  {
    var (w, h) := ResizeTarget(columns, rows);
    assert w * h == 8 * columns * rows;
    RowsGlyphsLength(w, h, data, CellRows(h));
  }
}
