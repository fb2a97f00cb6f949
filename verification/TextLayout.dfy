/** Printing text and measuring it: two walks of a cursor over the same string. */
module TextLayout {
  import Arith
  import opened Bytes

  const NEWLINE: Byte := 10
  const RETURN: Byte := 13

  /** A rectangle painted in the text colour, or else in the background colour. */
  datatype Block = Block(x: int, y: int, w: int, h: int, ink: bool)

  datatype Box = Box(minX: int, minY: int, maxX: int, maxY: int)
  {
    function Union(b: Box): Box {
      Box(if b.minX < minX then b.minX else minX, if b.minY < minY then b.minY else minY,
          if b.maxX > maxX then b.maxX else maxX, if b.maxY > maxY then b.maxY else maxY)
    }

    predicate Contains(b: Block) { minX <= b.x && minY <= b.y && b.x + b.w - 1 <= maxX && b.y + b.h - 1 <= maxY }
  }

  /** The measured rectangle: upper left corner and extent. */
  datatype Bounds = Bounds(x: int, y: int, w: int, h: int)
  {
    predicate Contains(b: Block) { x <= b.x && y <= b.y && b.x + b.w <= x + w && b.y + b.h <= y + h }
  }

  /** A glyph of a custom font; `rows` is its bitmap. */
  datatype Glyph = Glyph(width: nat, height: nat, xAdvance: nat, xOffset: int, yOffset: int, rows: seq<seq<bool>>)
  {
    predicate Valid() { |rows| == height && forall k | 0 <= k < height :: |rows[k]| == width }
  }

  /** The classic font has five columns of eight dots for each of 256 codes. */
  datatype Font =
    | Classic(columns: seq<seq<seq<bool>>>, cp437: bool)
    | Custom(first: Byte, last: Byte, yAdvance: nat, glyphs: seq<Glyph>)
  {
    predicate Valid() {
      match this
      case Classic(columns, _) =>
        |columns| == 256 &&
        forall c | 0 <= c < 256 :: |columns[c]| == 5 && forall i | 0 <= i < 5 :: |columns[c][i]| == 8
      case Custom(first, last, _, glyphs) =>
        last < first + |glyphs| && forall g | 0 <= g < |glyphs| :: glyphs[g].Valid()
    }
  }

  datatype Cursor = Cursor(x: int, y: int)

  /** The text settings; `solid` says that the background has a colour of its own. */
  datatype Style = Style(width: int, height: int, wrap: bool, sizeX: nat, sizeY: nat, solid: bool, font: Font)
  {
    predicate Valid() { sizeX > 0 && sizeY > 0 && font.Valid() }

    /** Whether the font has something to say about c; line ends are handled before. */
    predicate Known(c: Byte) { font.Classic? || font.first <= c <= font.last }

    function GlyphOf(c: Byte): Glyph
      requires Valid() && font.Custom? && Known(c)
    {
      font.glyphs[c - font.first]
    }

    function Width(c: Byte): nat
      requires Valid() && Known(c)
    {
      if font.Classic? then 6 else GlyphOf(c).width
    }

    function Height(c: Byte): nat
      requires Valid() && Known(c)
    {
      if font.Classic? then 8 else GlyphOf(c).height
    }

    function Left(c: Byte): int
      requires Valid() && Known(c)
    {
      if font.Classic? then 0 else GlyphOf(c).xOffset
    }

    function Top(c: Byte): int
      requires Valid() && Known(c)
    {
      if font.Classic? then 0 else GlyphOf(c).yOffset
    }

    function Advance(c: Byte): int
      requires Valid() && Known(c)
    {
      (if font.Classic? then 6 else GlyphOf(c).xAdvance) * sizeX
    }

    function LineHeight(): int { (if font.Classic? then 8 else font.yAdvance) * sizeY }

    function NextLine(at: Cursor): Cursor { Cursor(0, at.y + LineHeight()) }

    predicate Wraps(at: Cursor, c: Byte)
      requires Valid() && Known(c)
    {
      wrap && at.x + (Left(c) + Width(c)) * sizeX > width
    }

    /** Whether printing treats c as having a bitmap. */
    predicate Inked(c: Byte)
      requires Valid() && Known(c)
    {
      Width(c) > 0 && Height(c) > 0
    }

    // ----- The two walks -----

    /** Where printing puts c: it only wraps for glyphs with a bitmap. */
    function PrintAt(at: Cursor, c: Byte): Cursor
      requires Valid() && Known(c)
    {
      if Inked(c) && Wraps(at, c) then NextLine(at) else at
    }

    /** Where measuring puts c. */
    function MeasureAt(at: Cursor, c: Byte): Cursor
      requires Valid() && Known(c)
    {
      if Wraps(at, c) then NextLine(at) else at
    }

    function Printed(at: Cursor, c: Byte): Cursor
      requires Valid()
    {
      if c == NEWLINE then NextLine(at)
      else if c == RETURN || !Known(c) then at
      else Cursor(PrintAt(at, c).x + Advance(c), PrintAt(at, c).y)
    }

    function Measured(at: Cursor, c: Byte): Cursor
      requires Valid()
    {
      if c == NEWLINE then NextLine(at)
      else if c == RETURN || !Known(c) then at
      else Cursor(MeasureAt(at, c).x + Advance(c), MeasureAt(at, c).y)
    }

    function PrintedAll(at: Cursor, text: seq<Byte>): Cursor
      requires Valid()
    {
      if text == [] then at else Printed(PrintedAll(at, text[..|text| - 1]), text[|text| - 1])
    }

    function MeasuredAll(at: Cursor, text: seq<Byte>): Cursor
      requires Valid()
    {
      if text == [] then at else Measured(MeasuredAll(at, text[..|text| - 1]), text[|text| - 1])
    }

    /** Both walks are at the same place before every character and at the end. */
    ghost predicate SameWalk(at: Cursor, text: seq<Byte>)
      requires Valid()
    {
      forall n | 0 <= n <= |text| :: PrintedAll(at, text[..n]) == MeasuredAll(at, text[..n])
    }

    /** Measuring wraps for a character without a bitmap, and so leaves the place where printing stays. */
    predicate WrapsEmpty(at: Cursor, c: Byte)
      requires Valid()
    {
      c != NEWLINE && c != RETURN && Known(c) && !Inked(c) && Wraps(at, c) && NextLine(at) != at
    }

    lemma {:induction false} StepsAgree(at: Cursor, c: Byte)
      requires Valid()
      ensures Printed(at, c) == Measured(at, c) <==> !WrapsEmpty(at, c)
    {
    }

    /** The walks agree exactly as long as no character without a bitmap makes measuring wrap. */
    lemma {:induction false} WalksAgree(at: Cursor, text: seq<Byte>)
      requires Valid()
      ensures SameWalk(at, text) <==>
              forall n | 0 <= n < |text| :: !WrapsEmpty(MeasuredAll(at, text[..n]), text[n])
    {
      if forall n | 0 <= n < |text| :: !WrapsEmpty(MeasuredAll(at, text[..n]), text[n]) {
        forall n | 0 <= n <= |text|
          ensures PrintedAll(at, text[..n]) == MeasuredAll(at, text[..n])
        {
          AgreeUpTo(at, text, n);
        }
      }
      if SameWalk(at, text) {
        forall n | 0 <= n < |text|
          ensures !WrapsEmpty(MeasuredAll(at, text[..n]), text[n])
        {
          assert PrintedAll(at, text[..n]) == MeasuredAll(at, text[..n]);
          assert PrintedAll(at, text[..n + 1]) == MeasuredAll(at, text[..n + 1]);
          assert text[..n + 1][..n] == text[..n];
          StepsAgree(MeasuredAll(at, text[..n]), text[n]);
        }
      }
    }

    lemma {:induction false} AgreeUpTo(at: Cursor, text: seq<Byte>, n: nat)
      requires Valid() && n <= |text|
      requires forall k | 0 <= k < |text| :: !WrapsEmpty(MeasuredAll(at, text[..k]), text[k])
      ensures PrintedAll(at, text[..n]) == MeasuredAll(at, text[..n])
    {
      if n > 0 {
        AgreeUpTo(at, text, n - 1);
        assert text[..n][..n - 1] == text[..n - 1];
        StepsAgree(MeasuredAll(at, text[..n - 1]), text[n - 1]);
      }
    }

    /** In particular with wrapping off, and for every text without empty glyphs (so always in the classic
        font). */
    lemma {:induction false} WalksAgreeUsually(at: Cursor, text: seq<Byte>)
      requires Valid()
      requires !wrap || forall c | c in text && c != NEWLINE && c != RETURN && Known(c) :: Inked(c)
      ensures SameWalk(at, text)
    {
      WalksAgree(at, text);
    }

    // ----- The ink -----

    /** The dots of the first n bits of one bitmap row, `left` dots from the cursor. */
    function RowInk(x: int, y: int, left: int, row: seq<bool>, n: nat): seq<Block>
      requires n <= |row|
    {
      if n == 0 then []
      else RowInk(x, y, left, row, n - 1) +
           if row[n - 1] then [Block(x + (left + (n - 1)) * sizeX, y, sizeX, sizeY, true)] else []
    }

    function GlyphInk(at: Cursor, g: Glyph, n: nat): seq<Block>
      requires n <= |g.rows|
    {
      if n == 0 then []
      else GlyphInk(at, g, n - 1) +
           RowInk(at.x, at.y + (g.yOffset + (n - 1)) * sizeY, g.xOffset, g.rows[n - 1], |g.rows[n - 1]|)
    }

    /** The dots of the first n bits of a classic column; on a solid background the others are painted too. */
    function ColumnInk(x: int, y: int, column: seq<bool>, n: nat): seq<Block>
      requires n <= |column|
    {
      if n == 0 then []
      else ColumnInk(x, y, column, n - 1) +
           if column[n - 1] || solid then [Block(x, y + (n - 1) * sizeY, sizeX, sizeY, column[n - 1])] else []
    }

    function ClassicInk(at: Cursor, columns: seq<seq<bool>>, n: nat): seq<Block>
      requires n <= |columns|
    {
      if n == 0 then []
      else ClassicInk(at, columns, n - 1) +
           ColumnInk(at.x + (n - 1) * sizeX, at.y, columns[n - 1], |columns[n - 1]|)
    }

    /** The classic font draws nothing for a cell that is wholly off the screen. */
    predicate Visible(at: Cursor)
    {
      at.x < width && at.y < height && at.x + 6 * sizeX - 1 >= 0 && at.y + 8 * sizeY - 1 >= 0
    }

    /** The code whose pattern is shown: the classic character set skips one code at 176. */
    function Pattern(c: Byte): seq<seq<bool>>
      requires Valid() && font.Classic?
    {
      font.columns[if !font.cp437 && c >= 176 then (c + 1) % 256 else c]
    }

    /** What drawing c at the given place paints. */
    function CharInk(at: Cursor, c: Byte): seq<Block>
      requires Valid() && Known(c)
    {
      if font.Custom? then GlyphInk(at, GlyphOf(c), GlyphOf(c).height)
      else if !Visible(at) then []
      else ClassicInk(at, Pattern(c), 5) +
           if solid then [Block(at.x + 5 * sizeX, at.y, sizeX, 8 * sizeY, false)] else []
    }

    function WrittenInk(at: Cursor, c: Byte): seq<Block>
      requires Valid()
    {
      if c == NEWLINE || c == RETURN || !Known(c) || !Inked(c) then [] else CharInk(PrintAt(at, c), c)
    }

    function PrintedInk(at: Cursor, text: seq<Byte>): seq<Block>
      requires Valid()
    {
      if text == [] then []
      else var most := text[..|text| - 1];
           PrintedInk(at, most) + WrittenInk(PrintedAll(at, most), text[|text| - 1])
    }

    lemma {:induction false} NextWritten(at: Cursor, text: seq<Byte>, n: nat)
      requires Valid() && n < |text|
      ensures var here := PrintedAll(at, text[..n]);
              && PrintedAll(at, text[..n + 1]) == Printed(here, text[n])
              && PrintedInk(at, text[..n + 1]) == PrintedInk(at, text[..n]) + WrittenInk(here, text[n])
    {
      assert text[..n + 1][..n] == text[..n];
    }

    // ----- The measured box -----

    function Cell(at: Cursor, c: Byte): Box
      requires Valid() && Known(c)
    {
      var x1, y1 := at.x + Left(c) * sizeX, at.y + Top(c) * sizeY;
      Box(x1, y1, x1 + Width(c) * sizeX - 1, y1 + Height(c) * sizeY - 1)
    }

    function Stretched(box: Box, at: Cursor, c: Byte): Box
      requires Valid()
    {
      if c == NEWLINE || c == RETURN || !Known(c) then box else box.Union(Cell(MeasureAt(at, c), c))
    }

    function BoxAll(at: Cursor, text: seq<Byte>): Box
      requires Valid()
    {
      if text == [] then Box(width, height, -1, -1)
      else var most := text[..|text| - 1];
           Stretched(BoxAll(at, most), MeasuredAll(at, most), text[|text| - 1])
    }

    lemma {:induction false} NextMeasured(at: Cursor, text: seq<Byte>, n: nat)
      requires Valid() && n < |text|
      ensures var here := MeasuredAll(at, text[..n]);
              && MeasuredAll(at, text[..n + 1]) == Measured(here, text[n])
              && BoxAll(at, text[..n + 1]) == Stretched(BoxAll(at, text[..n]), here, text[n])
    {
      assert text[..n + 1][..n] == text[..n];
    }

    function TextBounds(at: Cursor, text: seq<Byte>): Bounds
      requires Valid()
    {
      var box := BoxAll(at, text);
      Bounds(if box.maxX >= box.minX then box.minX else at.x, if box.maxY >= box.minY then box.minY else at.y,
             if box.maxX >= box.minX then box.maxX - box.minX + 1 else 0,
             if box.maxY >= box.minY then box.maxY - box.minY + 1 else 0)
    }

    // ----- Which dots -----

    /** Dot j of a column: in the text colour if it is set, else in the background colour, or not at all where the
        background shows. */
    predicate ColumnDot(x: int, y: int, column: seq<bool>, n: nat, b: Block)
      requires n <= |column|
    {
      exists j | 0 <= j < n :: (column[j] || solid) && b == Block(x, y + j * sizeY, sizeX, sizeY, column[j])
    }

    predicate ClassicDot(at: Cursor, columns: seq<seq<bool>>, n: nat, b: Block)
      requires n <= |columns|
    {
      exists i | 0 <= i < n :: ColumnDot(at.x + i * sizeX, at.y, columns[i], |columns[i]|, b)
    }

    lemma {:induction false} ColumnDots(x: int, y: int, column: seq<bool>, n: nat, b: Block)
      requires n <= |column|
      ensures b in ColumnInk(x, y, column, n) <==> ColumnDot(x, y, column, n, b)
    {
      if n > 0 {
        ColumnDots(x, y, column, n - 1, b);
      }
    }

    lemma {:induction false} ClassicDots(at: Cursor, columns: seq<seq<bool>>, n: nat, b: Block)
      requires n <= |columns|
      ensures b in ClassicInk(at, columns, n) <==> ClassicDot(at, columns, n, b)
    {
      if n > 0 {
        ClassicDots(at, columns, n - 1, b);
        ColumnDots(at.x + (n - 1) * sizeX, at.y, columns[n - 1], |columns[n - 1]|, b);
        OneMoreColumn(at, columns, n, b);
      }
    }

    lemma {:induction false} OneMoreColumn(at: Cursor, columns: seq<seq<bool>>, n: nat, b: Block)
      requires 0 < n <= |columns|
      ensures ClassicDot(at, columns, n, b) <==>
        || ClassicDot(at, columns, n - 1, b)
        || ColumnDot(at.x + (n - 1) * sizeX, at.y, columns[n - 1], |columns[n - 1]|, b)
    {
    }

    /** A classic character that is not wholly off the screen paints its dots, and the column behind it on a solid
        background; the old character set leaves out code 176. */
    lemma {:induction false} ClassicShows(at: Cursor, c: Byte, b: Block)
      requires Valid() && font.Classic?
      ensures var code := if font.cp437 || c < 176 then c else (c + 1) % 256;
        b in CharInk(at, c) <==>
          && at.x < width && at.y < height && at.x + 6 * sizeX >= 1 && at.y + 8 * sizeY >= 1
          && (ClassicDot(at, font.columns[code], 5, b)
              || (solid && b == Block(at.x + 5 * sizeX, at.y, sizeX, 8 * sizeY, false)))
    {
      ClassicDots(at, Pattern(c), 5, b);
    }

    predicate RowDot(x: int, y: int, left: int, row: seq<bool>, n: nat, b: Block)
      requires n <= |row|
    {
      exists i | 0 <= i < n :: row[i] && b == Block(x + (left + i) * sizeX, y, sizeX, sizeY, true)
    }

    predicate GlyphDot(at: Cursor, g: Glyph, n: nat, b: Block)
      requires n <= |g.rows|
    {
      exists j | 0 <= j < n :: RowDot(at.x, at.y + (g.yOffset + j) * sizeY, g.xOffset, g.rows[j], |g.rows[j]|, b)
    }

    lemma {:induction false} RowDots(x: int, y: int, left: int, row: seq<bool>, n: nat, b: Block)
      requires n <= |row|
      ensures b in RowInk(x, y, left, row, n) <==> RowDot(x, y, left, row, n, b)
    {
      if n > 0 {
        RowDots(x, y, left, row, n - 1, b);
      }
    }

    lemma {:induction false} GlyphDots(at: Cursor, g: Glyph, n: nat, b: Block)
      requires n <= |g.rows|
      ensures b in GlyphInk(at, g, n) <==> GlyphDot(at, g, n, b)
    {
      if n > 0 {
        GlyphDots(at, g, n - 1, b);
        RowDots(at.x, at.y + (g.yOffset + (n - 1)) * sizeY, g.xOffset, g.rows[n - 1], |g.rows[n - 1]|, b);
        OneMoreRow(at, g, n, b);
      }
    }

    lemma {:induction false} OneMoreRow(at: Cursor, g: Glyph, n: nat, b: Block)
      requires 0 < n <= |g.rows|
      ensures GlyphDot(at, g, n, b) <==>
        || GlyphDot(at, g, n - 1, b)
        || RowDot(at.x, at.y + (g.yOffset + (n - 1)) * sizeY, g.xOffset, g.rows[n - 1], |g.rows[n - 1]|, b)
    {
    }

    /** A character of a custom font paints the set dots of its glyph, on the screen or not, and no background. */
    lemma {:induction false} CustomShows(at: Cursor, c: Byte, b: Block)
      requires Valid() && font.Custom? && font.first <= c <= font.last
      ensures var g := font.glyphs[c - font.first];
        b in CharInk(at, c) <==> GlyphDot(at, g, g.height, b)
    {
      GlyphDots(at, GlyphOf(c), GlyphOf(c).height, b);
    }

    /** Dot by dot: which ones a classic character paints in which colour. */
    lemma {:induction false} ClassicBlock(at: Cursor, c: Byte, i: nat, j: nat, ink: bool)
      requires Valid() && font.Classic?
      requires at.x < width && at.y < height && at.x + 6 * sizeX >= 1 && at.y + 8 * sizeY >= 1
      ensures Block(at.x + i * sizeX, at.y + j * sizeY, sizeX, sizeY, ink) in CharInk(at, c) <==>
        && i < 5 && j < 8 && (ink || solid)
        && font.columns[if font.cp437 || c < 176 then c else (c + 1) % 256][i][j] == ink
    {
      var b := Block(at.x + i * sizeX, at.y + j * sizeY, sizeX, sizeY, ink);
      var columns := font.columns[if font.cp437 || c < 176 then c else (c + 1) % 256];
      ClassicShows(at, c, b);
      if i < 5 && j < 8 && (ink || solid) && columns[i][j] == ink {
        DotIsPainted(at, columns, i, j);
      } else if ClassicDot(at, columns, 5, b) {
        var i', j' := DotPlace(at, columns, b);
        Arith.SameQuotient(i, i', 0, 0, sizeX);
        Arith.SameQuotient(j, j', 0, 0, sizeY);
        assert false;
      }
    }

    lemma {:induction false} DotIsPainted(at: Cursor, columns: seq<seq<bool>>, i: nat, j: nat)
      requires |columns| == 5 && i < 5 && |columns[i]| == 8 && j < 8 && (columns[i][j] || solid)
      ensures ClassicDot(at, columns, 5, Block(at.x + i * sizeX, at.y + j * sizeY, sizeX, sizeY, columns[i][j]))
    {
      var b := Block(at.x + i * sizeX, at.y + j * sizeY, sizeX, sizeY, columns[i][j]);
      assert ColumnDot(at.x + i * sizeX, at.y, columns[i], 8, b);
    }

    lemma {:induction false} DotPlace(at: Cursor, columns: seq<seq<bool>>, b: Block) returns (i: nat, j: nat)
      requires |columns| == 5 && (forall k | 0 <= k < 5 :: |columns[k]| == 8) && ClassicDot(at, columns, 5, b)
      ensures i < 5 && j < 8 && (columns[i][j] || solid)
      ensures b == Block(at.x + i * sizeX, at.y + j * sizeY, sizeX, sizeY, columns[i][j])
    {
      i :| i < 5 && ColumnDot(at.x + i * sizeX, at.y, columns[i], |columns[i]|, b);
      j :| j < 8 && (columns[i][j] || solid)
           && b == Block(at.x + i * sizeX, at.y + j * sizeY, sizeX, sizeY, columns[i][j]);
    }

    /** And nothing else but the column behind it on a solid background. */
    lemma {:induction false} ClassicOnly(at: Cursor, c: Byte, b: Block) returns (i: nat, j: nat)
      requires Valid() && font.Classic? && b in CharInk(at, c)
      ensures at.x < width && at.y < height && at.x + 6 * sizeX >= 1 && at.y + 8 * sizeY >= 1
      ensures || (i < 5 && j < 8 && b == Block(at.x + i * sizeX, at.y + j * sizeY, sizeX, sizeY, b.ink))
              || (solid && b == Block(at.x + 5 * sizeX, at.y, sizeX, 8 * sizeY, false))
    {
      var columns := font.columns[if font.cp437 || c < 176 then c else (c + 1) % 256];
      ClassicShows(at, c, b);
      i, j := 0, 0;
      if ClassicDot(at, columns, 5, b) {
        i, j := DotPlace(at, columns, b);
      }
    }

    /** The same for a custom font: dot i of row j of the glyph. */
    lemma {:induction false} CustomBlock(at: Cursor, c: Byte, i: nat, j: nat)
      requires Valid() && font.Custom? && font.first <= c <= font.last
      ensures var g := font.glyphs[c - font.first];
        Block(at.x + (g.xOffset + i) * sizeX, at.y + (g.yOffset + j) * sizeY, sizeX, sizeY, true) in CharInk(at, c)
        <==> j < g.height && i < g.width && g.rows[j][i]
    {
      var g := font.glyphs[c - font.first];
      var b := Block(at.x + (g.xOffset + i) * sizeX, at.y + (g.yOffset + j) * sizeY, sizeX, sizeY, true);
      CustomShows(at, c, b);
      if j < g.height && i < g.width && g.rows[j][i] {
        GlyphDotIsPainted(at, g, i, j);
      } else if GlyphDot(at, g, g.height, b) {
        var i', j' := GlyphPlace(at, g, b);
        Arith.SameQuotient(g.xOffset + i, g.xOffset + i', 0, 0, sizeX);
        Arith.SameQuotient(g.yOffset + j, g.yOffset + j', 0, 0, sizeY);
        assert false;
      }
    }

    lemma {:induction false} GlyphDotIsPainted(at: Cursor, g: Glyph, i: nat, j: nat)
      requires g.Valid() && j < g.height && i < g.width && g.rows[j][i]
      ensures GlyphDot(at, g, g.height,
                       Block(at.x + (g.xOffset + i) * sizeX, at.y + (g.yOffset + j) * sizeY, sizeX, sizeY, true))
    {
      var b := Block(at.x + (g.xOffset + i) * sizeX, at.y + (g.yOffset + j) * sizeY, sizeX, sizeY, true);
      assert RowDot(at.x, at.y + (g.yOffset + j) * sizeY, g.xOffset, g.rows[j], g.width, b);
    }

    lemma {:induction false} GlyphPlace(at: Cursor, g: Glyph, b: Block) returns (i: nat, j: nat)
      requires g.Valid() && GlyphDot(at, g, g.height, b)
      ensures j < g.height && i < g.width && g.rows[j][i]
      ensures b == Block(at.x + (g.xOffset + i) * sizeX, at.y + (g.yOffset + j) * sizeY, sizeX, sizeY, true)
    {
      j :| j < g.height && RowDot(at.x, at.y + (g.yOffset + j) * sizeY, g.xOffset, g.rows[j], |g.rows[j]|, b);
      i :| i < |g.rows[j]| && g.rows[j][i]
           && b == Block(at.x + (g.xOffset + i) * sizeX, at.y + (g.yOffset + j) * sizeY, sizeX, sizeY, true);
    }

    lemma {:induction false} CustomOnly(at: Cursor, c: Byte, b: Block) returns (i: nat, j: nat)
      requires Valid() && font.Custom? && font.first <= c <= font.last && b in CharInk(at, c)
      ensures var g := font.glyphs[c - font.first];
        && i < g.width && j < g.height
        && b == Block(at.x + (g.xOffset + i) * sizeX, at.y + (g.yOffset + j) * sizeY, sizeX, sizeY, true)
    {
      CustomShows(at, c, b);
      i, j := GlyphPlace(at, font.glyphs[c - font.first], b);
    }

    // ----- The walks in numbers -----

    /** Characters 6 by 8 dots large: both walks go on by 6 dots, after a new line if that would leave the screen. */
    lemma {:induction false} ClassicStep(at: Cursor, c: Byte)
      requires Valid() && font.Classic? && c != 10 && c != 13
      ensures var off := wrap && at.x + 6 * sizeX > width;
        var x, y := if off then 0 else at.x, if off then at.y + 8 * sizeY else at.y;
        && Printed(at, c) == Measured(at, c) == Cursor(x + 6 * sizeX, y)
        && WrittenInk(at, c) == CharInk(Cursor(x, y), c)
        && forall box: Box :: Stretched(box, at, c) == box.Union(Box(x, y, x + 6 * sizeX - 1, y + 8 * sizeY - 1))
    {
    }

    /** The same for a character of a custom font. Only printing asks whether there are dots before it wraps. */
    lemma {:induction false} CustomStep(at: Cursor, c: Byte)
      requires Valid() && font.Custom? && c != 10 && c != 13 && font.first <= c <= font.last
      ensures var g := font.glyphs[c - font.first];
        var off, down := wrap && at.x + (g.xOffset + g.width) * sizeX > width, font.yAdvance * sizeY;
        var here := if off then Cursor(0, at.y + down) else at;
        && Measured(at, c) == Cursor(here.x + g.xAdvance * sizeX, here.y)
        && (forall box: Box :: Stretched(box, at, c) == box.Union(
              Box(here.x + g.xOffset * sizeX, here.y + g.yOffset * sizeY,
                  here.x + g.xOffset * sizeX + g.width * sizeX - 1,
                  here.y + g.yOffset * sizeY + g.height * sizeY - 1)))
        && (if g.width > 0 && g.height > 0
            then Printed(at, c) == Measured(at, c) && WrittenInk(at, c) == CharInk(here, c)
            else Printed(at, c) == Cursor(at.x + g.xAdvance * sizeX, at.y) && WrittenInk(at, c) == [])
    {
    }

    /** Line ends and characters a custom font does not have. */
    lemma {:induction false} OtherStep(at: Cursor, c: Byte)
      requires Valid() && (c == 10 || c == 13 || (font.Custom? && !(font.first <= c <= font.last)))
      ensures var down := match font case Classic(_, _) => 8 * sizeY case Custom(_, _, advance, _) => advance * sizeY;
        && Printed(at, c) == Measured(at, c) == (if c == 10 then Cursor(0, at.y + down) else at)
        && WrittenInk(at, c) == [] && forall box: Box :: Stretched(box, at, c) == box
    {
    }

    /** A text with nothing to show is measured as nothing, at the given place. */
    lemma {:induction false} NothingMeasured(at: Cursor, text: seq<Byte>)
      requires Valid() && width >= 0 && height >= 0
      requires forall i | 0 <= i < |text| ::
        text[i] == 10 || text[i] == 13 || (font.Custom? && !(font.first <= text[i] <= font.last))
      ensures TextBounds(at, text) == Bounds(at.x, at.y, 0, 0)
    {
      NoCells(at, text);
    }

    lemma {:induction false} NoCells(at: Cursor, text: seq<Byte>)
      requires Valid()
      requires forall i | 0 <= i < |text| ::
        text[i] == 10 || text[i] == 13 || (font.Custom? && !(font.first <= text[i] <= font.last))
      ensures BoxAll(at, text) == Box(width, height, -1, -1)
    {
      if text != [] {
        var n := |text| - 1;
        NoCells(at, text[..n]);
        OtherStep(MeasuredAll(at, text[..n]), text[n]);
      }
    }

    /** A text of n classic characters that fits one line of the screen is measured as 6 n by 8 dots, and printing
        it ends behind it. */
    lemma {:induction false} OneLineBounds(at: Cursor, text: seq<Byte>)
      requires Valid() && font.Classic? && text != [] && 10 !in text && 13 !in text
      requires 0 <= at.x && at.x + 6 * |text| * sizeX <= width && 0 <= at.y && at.y + 8 * sizeY <= height
      ensures TextBounds(at, text) == Bounds(at.x, at.y, 6 * |text| * sizeX, 8 * sizeY)
      ensures PrintedAll(at, text) == Cursor(at.x + 6 * |text| * sizeX, at.y)
    {
      LineLengthIs(|text|);
      OneLinePrinted(at, text, |text|);
      OneLineMeasured(at, text, |text|);
      assert text[..|text|] == text;
      Arith.Monotone(1, 6 * |text|, sizeX);
    }

    /** The box of a line of classic characters that is w dots long. */
    function LineBox(at: Cursor, w: int): Box
    {
      if w == 0 then Box(width, height, -1, -1) else Box(at.x, at.y, at.x + w - 1, at.y + 8 * sizeY - 1)
    }

    lemma {:induction false} NextInLine(at: Cursor, w: nat, c: Byte)
      requires Valid() && font.Classic? && c != 10 && c != 13
      requires 0 <= at.x && at.x + w + 6 * sizeX <= width && 0 <= at.y && at.y + 8 * sizeY <= height
      ensures var here := Cursor(at.x + w, at.y);
        && Printed(here, c) == Measured(here, c) == Cursor(at.x + w + 6 * sizeX, at.y)
        && Stretched(LineBox(at, w), here, c) == LineBox(at, w + 6 * sizeX)
    {
      ClassicStep(Cursor(at.x + w, at.y), c);
    }

    function LineLength(n: nat): nat { if n == 0 then 0 else LineLength(n - 1) + 6 * sizeX }

    lemma {:induction false} LineLengthIs(n: nat)
      ensures LineLength(n) == 6 * n * sizeX
    {
      if n > 0 {
        LineLengthIs(n - 1);
        Arith.Sum(6 * (n - 1), 6, sizeX);
      }
    }

    lemma {:induction false} OneLinePrinted(at: Cursor, text: seq<Byte>, n: nat)
      requires Valid() && font.Classic? && n <= |text| && 10 !in text && 13 !in text
      requires 0 <= at.x && at.x + LineLength(n) <= width && 0 <= at.y && at.y + 8 * sizeY <= height
      ensures PrintedAll(at, text[..n]) == Cursor(at.x + LineLength(n), at.y)
    {
      if n > 0 {
        var k: nat := n - 1;
        OneLinePrinted(at, text, k);
        NextInLine(at, LineLength(k), text[k]);
        assert text[..n][..k] == text[..k];
      }
    }

    lemma {:induction false} OneLineMeasured(at: Cursor, text: seq<Byte>, n: nat)
      requires Valid() && font.Classic? && n <= |text| && 10 !in text && 13 !in text
      requires 0 <= at.x && at.x + LineLength(n) <= width && 0 <= at.y && at.y + 8 * sizeY <= height
      ensures MeasuredAll(at, text[..n]) == Cursor(at.x + LineLength(n), at.y)
      ensures BoxAll(at, text[..n]) == LineBox(at, LineLength(n))
    {
      if n > 0 {
        var k: nat := n - 1;
        OneLineMeasured(at, text, k);
        NextInLine(at, LineLength(k), text[k]);
        assert text[..n][..k] == text[..k];
      }
    }

    // ----- Ink stays in its cell -----

    lemma {:induction false} RowInkStays(x: int, y: int, left: int, row: seq<bool>, n: nat, b: Block)
      requires n <= |row| && b in RowInk(x, y, left, row, n)
      ensures b.w == sizeX && b.h == sizeY && b.y == y
      ensures x + left * sizeX <= b.x && b.x + b.w <= x + (left + n) * sizeX
    {
      Arith.OneAfter(left + (n - 1), left + n, sizeX);
      if b in RowInk(x, y, left, row, n - 1) {
        RowInkStays(x, y, left, row, n - 1, b);
      } else {
        Arith.Monotone(left, left + (n - 1), sizeX);
      }
    }

    lemma {:induction false} GlyphInkStays(at: Cursor, g: Glyph, n: nat, b: Block)
      requires g.Valid() && n <= |g.rows| && b in GlyphInk(at, g, n)
      ensures b.w == sizeX && b.h == sizeY
      ensures at.x + g.xOffset * sizeX <= b.x && b.x + b.w <= at.x + (g.xOffset + g.width) * sizeX
      ensures at.y + g.yOffset * sizeY <= b.y && b.y + b.h <= at.y + (g.yOffset + n) * sizeY
    {
      var y := at.y + (g.yOffset + (n - 1)) * sizeY;
      Arith.OneAfter(g.yOffset + (n - 1), g.yOffset + n, sizeY);
      if b in GlyphInk(at, g, n - 1) {
        GlyphInkStays(at, g, n - 1, b);
      } else {
        RowInkStays(at.x, y, g.xOffset, g.rows[n - 1], |g.rows[n - 1]|, b);
        Arith.Monotone(g.yOffset, g.yOffset + (n - 1), sizeY);
      }
    }

    lemma {:induction false} ColumnInkStays(x: int, y: int, column: seq<bool>, n: nat, b: Block)
      requires n <= |column| && b in ColumnInk(x, y, column, n)
      ensures b.x == x && b.w == sizeX && b.h == sizeY && y <= b.y && b.y + b.h <= y + n * sizeY
    {
      Arith.OneAfter(n - 1, n, sizeY);
      Arith.Monotone(0, n - 1, sizeY);
      if b in ColumnInk(x, y, column, n - 1) {
        ColumnInkStays(x, y, column, n - 1, b);
      }
    }

    lemma {:induction false} ClassicInkStays(at: Cursor, columns: seq<seq<bool>>, n: nat, b: Block)
      requires n <= |columns| && (forall i | 0 <= i < n :: |columns[i]| == 8) && b in ClassicInk(at, columns, n)
      ensures b.w == sizeX && b.h == sizeY
      ensures at.x <= b.x && b.x + b.w <= at.x + n * sizeX && at.y <= b.y && b.y + b.h <= at.y + 8 * sizeY
    {
      Arith.OneAfter(n - 1, n, sizeX);
      Arith.Monotone(0, n - 1, sizeX);
      if b in ClassicInk(at, columns, n - 1) {
        ClassicInkStays(at, columns, n - 1, b);
      } else {
        ColumnInkStays(at.x + (n - 1) * sizeX, at.y, columns[n - 1], 8, b);
      }
    }

    lemma {:induction false} CustomInkStays(at: Cursor, c: Byte, b: Block)
      requires Valid() && font.Custom? && Known(c) && b in CharInk(at, c)
      ensures Cell(at, c).Contains(b) && b.w >= 1 && b.h >= 1
    {
      var g := GlyphOf(c);
      GlyphInkStays(at, g, g.height, b);
      CellOfGlyph(at, c, g);
    }

    lemma {:induction false} CellOfGlyph(at: Cursor, c: Byte, g: Glyph)
      requires Valid() && font.Custom? && Known(c) && g == GlyphOf(c)
      ensures var box := Cell(at, c);
        && box.minX == at.x + g.xOffset * sizeX && box.maxX == at.x + (g.xOffset + g.width) * sizeX - 1
        && box.minY == at.y + g.yOffset * sizeY && box.maxY == at.y + (g.yOffset + g.height) * sizeY - 1
    {
      Arith.Sum(g.xOffset, g.width, sizeX);
      Arith.Sum(g.yOffset, g.height, sizeY);
    }

    lemma {:induction false} CharInkStays(at: Cursor, c: Byte, b: Block)
      requires Valid() && Known(c) && b in CharInk(at, c)
      ensures Cell(at, c).Contains(b) && b.w >= 1 && b.h >= 1
    {
      if font.Custom? {
        CustomInkStays(at, c, b);
      } else if b in ClassicInk(at, Pattern(c), 5) {
        ClassicInkStays(at, Pattern(c), 5, b);
      }
    }

    // ----- Printing stays in the box -----

    /** Every dot that printing the text paints lies in the measured box. */
    lemma {:induction false} InkStaysInBox(at: Cursor, text: seq<Byte>, b: Block)
      requires Valid() && SameWalk(at, text) && b in PrintedInk(at, text)
      ensures BoxAll(at, text).Contains(b) && b.w >= 1 && b.h >= 1
    {
      if text != [] {
        var n := |text| - 1;
        assert text[..n + 1] == text;
        assert PrintedAll(at, text[..n]) == MeasuredAll(at, text[..n]);
        var c, place := text[n], PrintedAll(at, text[..n]);
        if b in PrintedInk(at, text[..n]) {
          forall k | 0 <= k <= n
            ensures PrintedAll(at, text[..n][..k]) == MeasuredAll(at, text[..n][..k])
          {
            assert text[..n][..k] == text[..k];
          }
          InkStaysInBox(at, text[..n], b);
        } else {
          CharInkStays(PrintAt(place, c), c, b);
        }
      }
    }

    /** The rectangle that measuring returns holds every dot that printing paints, whenever the walks agree. */
    lemma {:induction false} TextStaysInBounds(at: Cursor, text: seq<Byte>, b: Block)
      requires Valid() && SameWalk(at, text) && b in PrintedInk(at, text)
      ensures TextBounds(at, text).Contains(b)
    {
      InkStaysInBox(at, text, b);
    }

    // ----- The box is no larger than it has to be -----

    /** Character n has a cell in the measured text. */
    predicate HasCell(c: Byte) { c != NEWLINE && c != RETURN && Known(c) }

    function CellAt(at: Cursor, text: seq<Byte>, n: nat): Box
      requires Valid() && n < |text| && HasCell(text[n])
    {
      Cell(MeasureAt(MeasuredAll(at, text[..n]), text[n]), text[n])
    }

    lemma {:induction false} BoxIsUnion(at: Cursor, text: seq<Byte>, m: nat)
      requires Valid() && m <= |text|
      ensures var box := BoxAll(at, text[..m]);
              && (box.minX == width ||
                  exists n | 0 <= n < m :: HasCell(text[n]) && CellAt(at, text, n).minX == box.minX)
              && (box.minY == height ||
                  exists n | 0 <= n < m :: HasCell(text[n]) && CellAt(at, text, n).minY == box.minY)
              && (box.maxX == -1 || exists n | 0 <= n < m :: HasCell(text[n]) && CellAt(at, text, n).maxX == box.maxX)
              && (box.maxY == -1 || exists n | 0 <= n < m :: HasCell(text[n]) && CellAt(at, text, n).maxY == box.maxY)
    {
      if m > 0 {
        BoxIsUnion(at, text, m - 1);
        assert text[..m][..m - 1] == text[..m - 1];
        var before := BoxAll(at, text[..m - 1]);
        if HasCell(text[m - 1]) {
          assert BoxAll(at, text[..m]) == before.Union(CellAt(at, text, m - 1));
        } else {
          assert BoxAll(at, text[..m]) == before;
        }
      }
    }
  }

  // ----- Where the promise fails -----

  /** A glyph of one dot, seven rows above the cursor, and an empty one for the space before it. */
  function TwoGlyphs(): Style
  {
    Style(10, 100, true, 1, 1, false,
          Custom(32, 33, 8, [Glyph(0, 0, 3, 0, 1, []), Glyph(1, 1, 2, 0, -7, [[true]])]))
  }

  /** What the example needs to know of these settings. */
  predicate IsExample(s: Style)
  {
    && s.Valid() && s.width == 10 && s.height == 100 && s.wrap && s.sizeX == 1 && s.sizeY == 1
    && s.font.Custom? && s.font.first == 32 && s.font.last == 33 && s.font.yAdvance == 8
    && s.GlyphOf(32) == Glyph(0, 0, 3, 0, 1, []) && s.GlyphOf(33) == Glyph(1, 1, 2, 0, -7, [[true]])
  }

  lemma {:induction false} Example() returns (s: Style)
    ensures IsExample(s)
  {
    s := TwoGlyphs();
  }

  lemma {:induction false} SpaceDiverges(s: Style, at: Cursor)
    requires IsExample(s) && at == Cursor(11, 20)
    ensures s.PrintedAll(at, [32]) == Cursor(14, 20) && s.PrintedInk(at, [32]) == []
    ensures s.MeasuredAll(at, [32]) == Cursor(3, 28) && s.BoxAll(at, [32]) == Box(0, 29, -1, 28)
  {
    assert [32][..0] == [];
    assert s.Cell(Cursor(0, 28), 32) == Box(0, 29, -1, 28);
  }

  lemma {:induction false} NewLineStays(s: Style, at: Cursor)
    requires IsExample(s) && at == Cursor(11, 20)
    ensures s.PrintedAll(at, [32, NEWLINE]) == Cursor(0, 28) && s.PrintedInk(at, [32, NEWLINE]) == []
    ensures s.MeasuredAll(at, [32, NEWLINE]) == Cursor(0, 36) && s.BoxAll(at, [32, NEWLINE]) == Box(0, 29, -1, 28)
  {
    SpaceDiverges(s, at);
    assert [32, NEWLINE][..1] == [32];
  }

  lemma {:induction false} DotIsWritten(s: Style)
    requires IsExample(s)
    ensures s.WrittenInk(Cursor(0, 28), 33) == [Block(0, 21, 1, 1, true)]
    ensures s.Stretched(Box(0, 29, -1, 28), Cursor(0, 36), 33) == Box(0, 29, 0, 29)
  {
    var g := s.GlyphOf(33);
    assert s.RowInk(0, 21, 0, [true], 1) == [Block(0, 21, 1, 1, true)];
    assert s.GlyphInk(Cursor(0, 28), g, 1) == [Block(0, 21, 1, 1, true)];
    assert s.Inked(33) && !s.Wraps(Cursor(0, 28), 33) && !s.Wraps(Cursor(0, 36), 33);
  }

  /** A space beyond the right edge and a new line in the font above: measuring wraps once more than printing,
      and the dot lies above the measured box. */
  lemma {:induction false} EmptyGlyphEscapes() returns (s: Style, at: Cursor, text: seq<Byte>, dot: Block)
    ensures s.Valid() && !s.SameWalk(at, text)
    ensures dot in s.PrintedInk(at, text) && !s.TextBounds(at, text).Contains(dot)
  {
    s := Example();
    at := Cursor(11, 20);
    NewLineStays(s, at);
    DotIsWritten(s);
    text, dot := [32, NEWLINE, 33], Block(0, 21, 1, 1, true);
    Escapes(s, at, text, [32, NEWLINE], dot);
  }

  lemma {:induction false} Escapes(s: Style, at: Cursor, text: seq<Byte>, most: seq<Byte>, dot: Block)
    requires s.Valid() && |text| == 3 && most == text[..2]
    requires s.PrintedAll(at, most) != s.MeasuredAll(at, most)
    requires dot in s.WrittenInk(s.PrintedAll(at, most), text[2])
    requires dot.y < s.Stretched(s.BoxAll(at, most), s.MeasuredAll(at, most), text[2]).minY
    requires var box := s.Stretched(s.BoxAll(at, most), s.MeasuredAll(at, most), text[2]); box.minY <= box.maxY
    ensures !s.SameWalk(at, text)
    ensures dot in s.PrintedInk(at, text) && !s.TextBounds(at, text).Contains(dot)
  {
    s.NextWritten(at, text, 2);
    s.NextMeasured(at, text, 2);
    assert text[..3] == text;
  }

  // ----- The printing object -----

  class Printer {
    var style: Style
    var cursorX: int
    var cursorY: int
    var drawn: seq<Block>

    function At(): Cursor
      reads this
    {
      Cursor(cursorX, cursorY)
    }

    /** Every writePixel and writeFillRect call, a pixel being a block of size one. */
    method DrawChar(x: int, y: int, c: Byte)
      requires style.Valid() && style.Known(c)
      modifies `drawn
      ensures drawn == old(drawn) + style.CharInk(Cursor(x, y), c)
    {
      if style.font.Classic? {
        DrawClassicChar(x, y, c);
      } else {
        DrawGlyph(Cursor(x, y), style.GlyphOf(c));
      }
    }

    method DrawClassicChar(x: int, y: int, c: Byte)
      requires style.Valid() && style.font.Classic?
      modifies `drawn
      ensures drawn == old(drawn) + style.CharInk(Cursor(x, y), c)
    {
      var sizeX, sizeY := style.sizeX, style.sizeY;
      if x >= style.width || y >= style.height || x + 6 * sizeX - 1 < 0 || y + 8 * sizeY - 1 < 0 {
        return;
      }
      DrawCell(x, y, style.Pattern(c));
    }

    method DrawCell(x: int, y: int, columns: seq<seq<bool>>)
      requires style.Valid() && |columns| == 5 && forall i | 0 <= i < 5 :: |columns[i]| == 8
      modifies `drawn
      ensures drawn == old(drawn) + (style.ClassicInk(Cursor(x, y), columns, 5) +
                if style.solid then [Block(x + 5 * style.sizeX, y, style.sizeX, 8 * style.sizeY, false)] else [])
    {
      ghost var before, ink := drawn, style.ClassicInk(Cursor(x, y), columns, 5);
      DrawClassic(Cursor(x, y), columns);
      if style.solid {
        DrawLastColumn(x, y);
        Arith.Associate(before, ink, [Block(x + 5 * style.sizeX, y, style.sizeX, 8 * style.sizeY, false)]);
      } else {
        Arith.Associate(before, ink, []);
      }
    }

    method DrawLastColumn(x: int, y: int)
      modifies `drawn
      ensures drawn == old(drawn) + [Block(x + 5 * style.sizeX, y, style.sizeX, 8 * style.sizeY, false)]
    {
      if style.sizeX == 1 && style.sizeY == 1 {
        drawn := drawn + [Block(x + 5, y, 1, 8, false)];
      } else {
        drawn := drawn + [Block(x + 5 * style.sizeX, y, style.sizeX, 8 * style.sizeY, false)];
      }
    }

    method DrawClassic(at: Cursor, columns: seq<seq<bool>>)
      requires style.Valid() && |columns| == 5 && forall i | 0 <= i < 5 :: |columns[i]| == 8
      modifies `drawn
      ensures drawn == old(drawn) + style.ClassicInk(at, columns, 5)
    {
      var i := 0;
      while i < 5
        invariant 0 <= i <= 5
        invariant drawn == old(drawn) + style.ClassicInk(at, columns, i)
      {
        ghost var before := drawn;
        var j := 0;
        while j < 8
          invariant 0 <= j <= 8
          invariant drawn == before + style.ColumnInk(at.x + i * style.sizeX, at.y, columns[i], j)
        {
          if columns[i][j] {
            DrawDot(at.x, at.y, i, j, true);
          } else if style.solid {
            DrawDot(at.x, at.y, i, j, false);
          }
          j := j + 1;
        }
        i := i + 1;
      }
    }

    method DrawGlyph(at: Cursor, g: Glyph)
      requires style.Valid() && g.Valid()
      modifies `drawn
      ensures drawn == old(drawn) + style.GlyphInk(at, g, g.height)
    {
      var yy := 0;
      while yy < g.height
        invariant 0 <= yy <= g.height
        invariant drawn == old(drawn) + style.GlyphInk(at, g, yy)
      {
        ghost var before := drawn;
        ghost var y := at.y + (g.yOffset + yy) * style.sizeY;
        var xx := 0;
        while xx < g.width
          invariant 0 <= xx <= g.width
          invariant drawn == before + style.RowInk(at.x, y, g.xOffset, g.rows[yy], xx)
        {
          if g.rows[yy][xx] {
            DrawDot(at.x, at.y, g.xOffset + xx, g.yOffset + yy, true);
          }
          xx := xx + 1;
        }
        yy := yy + 1;
      }
    }

    /** One dot: a pixel at size one, else a filled rectangle. */
    method DrawDot(x: int, y: int, i: int, j: int, ink: bool)
      requires style.Valid()
      modifies `drawn
      ensures drawn == old(drawn) + [Block(x + i * style.sizeX, y + j * style.sizeY, style.sizeX, style.sizeY, ink)]
    {
      if style.sizeX == 1 && style.sizeY == 1 {
        drawn := drawn + [Block(x + i, y + j, 1, 1, ink)];
      } else {
        drawn := drawn + [Block(x + i * style.sizeX, y + j * style.sizeY, style.sizeX, style.sizeY, ink)];
      }
    }

    method Write(c: Byte)
      requires style.Valid()
      modifies `cursorX, `cursorY, `drawn
      ensures At() == style.Printed(old(At()), c)
      ensures drawn == old(drawn) + style.WrittenInk(old(At()), c)
    {
      if style.font.Classic? {
        WriteClassic(c);
      } else {
        WriteCustom(c);
      }
    }

    method WriteClassic(c: Byte)
      requires style.Valid() && style.font.Classic?
      modifies `cursorX, `cursorY, `drawn
      ensures At() == style.Printed(old(At()), c)
      ensures drawn == old(drawn) + style.WrittenInk(old(At()), c)
    {
      if c == NEWLINE {
        cursorX := 0;
        cursorY := cursorY + style.sizeY * 8;
      } else if c != RETURN {
        if style.wrap && cursorX + style.sizeX * 6 > style.width {
          cursorX := 0;
          cursorY := cursorY + style.sizeY * 8;
        }
        DrawChar(cursorX, cursorY, c);
        cursorX := cursorX + style.sizeX * 6;
      }
    }

    method WriteCustom(c: Byte)
      requires style.Valid() && style.font.Custom?
      modifies `cursorX, `cursorY, `drawn
      ensures At() == style.Printed(old(At()), c)
      ensures drawn == old(drawn) + style.WrittenInk(old(At()), c)
    {
      if c == NEWLINE {
        cursorX := 0;
        cursorY := cursorY + style.sizeY * style.font.yAdvance;
      } else if c != RETURN {
        var first := style.font.first;
        if c >= first && c <= style.font.last {
          var glyph := style.font.glyphs[c - first];
          var w, h := glyph.width, glyph.height;
          if w > 0 && h > 0 {
            var xo := glyph.xOffset;
            if style.wrap && cursorX + (xo + w) * style.sizeX > style.width {
              cursorX := 0;
              cursorY := cursorY + style.sizeY * style.font.yAdvance;
            }
            assert At() == style.PrintAt(old(At()), c);
            DrawChar(cursorX, cursorY, c);
          }
          cursorX := cursorX + glyph.xAdvance * style.sizeX;
        }
      }
    }

    method Print(text: seq<Byte>)
      requires style.Valid()
      modifies `cursorX, `cursorY, `drawn
      ensures At() == style.PrintedAll(old(At()), text)
      ensures drawn == old(drawn) + style.PrintedInk(old(At()), text)
    {
      var n := 0;
      while n < |text|
        invariant 0 <= n <= |text|
        invariant At() == style.PrintedAll(old(At()), text[..n])
        invariant drawn == old(drawn) + style.PrintedInk(old(At()), text[..n])
      {
        style.NextWritten(old(At()), text, n);
        ghost var ink, next := style.PrintedInk(old(At()), text[..n]), style.WrittenInk(At(), text[n]);
        Write(text[n]);
        Arith.Associate(old(drawn), ink, next);
        n := n + 1;
      }
      assert text[..n] == text;
    }

    method CharBounds(c: Byte, at: Cursor, box: Box) returns (at': Cursor, box': Box)
      requires style.Valid()
      ensures at' == style.Measured(at, c) && box' == style.Stretched(box, at, c)
    {
      if style.font.Custom? {
        at', box' := CustomBounds(c, at, box);
      } else {
        at', box' := ClassicBounds(c, at, box);
      }
    }

    method CustomBounds(c: Byte, at: Cursor, box: Box) returns (at': Cursor, box': Box)
      requires style.Valid() && style.font.Custom?
      ensures at' == style.Measured(at, c) && box' == style.Stretched(box, at, c)
    {
      var x, y := at.x, at.y;
      box' := box;
      if c == NEWLINE {
        x := 0;
        y := y + style.sizeY * style.font.yAdvance;
      } else if c != RETURN {
        var first, last := style.font.first, style.font.last;
        if c >= first && c <= last {
          var g := style.font.glyphs[c - first];
          if style.wrap && x + (g.xOffset + g.width) * style.sizeX > style.width {
            x := 0;
            y := y + style.sizeY * style.font.yAdvance;
          }
          var x1, y1 := x + g.xOffset * style.sizeX, y + g.yOffset * style.sizeY;
          box' := Stretch(box, x1, y1, x1 + g.width * style.sizeX - 1, y1 + g.height * style.sizeY - 1);
          x := x + g.xAdvance * style.sizeX;
        }
      }
      at' := Cursor(x, y);
    }

    method ClassicBounds(c: Byte, at: Cursor, box: Box) returns (at': Cursor, box': Box)
      requires style.Valid() && style.font.Classic?
      ensures at' == style.Measured(at, c) && box' == style.Stretched(box, at, c)
    {
      var x, y := at.x, at.y;
      box' := box;
      if c == NEWLINE {
        x := 0;
        y := y + style.sizeY * 8;
      } else if c != RETURN {
        if style.wrap && x + style.sizeX * 6 > style.width {
          x := 0;
          y := y + style.sizeY * 8;
        }
        box' := Stretch(box, x, y, x + style.sizeX * 6 - 1, y + style.sizeY * 8 - 1);
        x := x + style.sizeX * 6;
      }
      at' := Cursor(x, y);
    }

    static method Stretch(box: Box, x1: int, y1: int, x2: int, y2: int) returns (r: Box)
      ensures r == box.Union(Box(x1, y1, x2, y2))
    {
      r := box;
      if x1 < r.minX {
        r := r.(minX := x1);
      }
      if y1 < r.minY {
        r := r.(minY := y1);
      }
      if x2 > r.maxX {
        r := r.(maxX := x2);
      }
      if y2 > r.maxY {
        r := r.(maxY := y2);
      }
    }

    /** `text` is the string up to its terminator. */
    method GetTextBounds(text: seq<Byte>, x: int, y: int) returns (r: Bounds)
      requires style.Valid()
      ensures r == style.TextBounds(Cursor(x, y), text)
    {
      r := Bounds(x, y, 0, 0);
      var at, box := Cursor(x, y), Box(style.width, style.height, -1, -1);
      var n := 0;
      while n < |text|
        invariant 0 <= n <= |text|
        invariant at == style.MeasuredAll(Cursor(x, y), text[..n]) && box == style.BoxAll(Cursor(x, y), text[..n])
      {
        assert text[..n + 1][..n] == text[..n];
        at, box := CharBounds(text[n], at, box);
        n := n + 1;
      }
      assert text[..n] == text;
      if box.maxX >= box.minX {
        r := r.(x := box.minX, w := box.maxX - box.minX + 1);
      }
      if box.maxY >= box.minY {
        r := r.(y := box.minY, h := box.maxY - box.minY + 1);
      }
    }
  }
}
