/** What one draw asks for: an area with some column on the screen, packed image data with 4 bits or 1 bit per
    pixel, and an optional line mask. */
module DrawJob {
  import opened Arith
  import opened Bits
  import opened Options
  import Lut

  datatype Rect = Rect(x: int, y: int, width: int, height: int) {
    predicate OnScreen(w: nat, h: nat) {
      0 <= x && 0 <= y && 1 <= width && 1 <= height && x + width <= w && y + height <= h
    }

    /** Some column is on the screen. */
    predicate Reaches(w: nat) {
      1 <= width && x < w && 0 < x + width
    }
  }

  type Line = seq<bv8>

  datatype Depth = FourBits | OneBit

  datatype Job = Job(depth: Depth, area: Rect, data: seq<bv8>, drawnLines: Option<seq<bool>>,
                     mode: Lut.DrawMode, groups: nat, screenHeight: nat)
  {
    predicate Valid() {
      && groups > 0
      && area.Reaches(Width())
      && |data| >= RowOffset(area.height)
      && (drawnLines.Some? ==> |drawnLines.value| >= area.height)
    }

    predicate Gray() { Valid() && depth == FourBits }

    /** With 1 bit per pixel an area that starts left of the screen starts at a byte, else the shift is negative. */
    predicate Mono() { Valid() && depth == OneBit && (area.x < 0 ==> area.x % 8 == 0) }

    /** The screen is a whole number of 16-pixel groups wide. */
    function Width(): nat { 16 * groups }

    function PerByte(): nat { if depth == FourBits then 2 else 8 }

    /** Bytes of a line. */
    function LineSize(): nat { if depth == FourBits then 8 * groups else 2 * groups }

    /** Bytes per image row; the last byte may be partly padding. */
    function Stride(): nat {
      if area.width < 0 then 0
      else if depth == FourBits then area.width / 2 + area.width % 2
      else area.width / 8 + (if area.width % 8 > 0 then 1 else 0)
    }

    // The image starts at a byte of the data and of the line, and is shifted to its column then.

    /** Bytes of a row left of the screen. */
    function Skipped(): nat { if area.x < 0 then (0 - area.x) / PerByte() else 0 }

    /** Where a row starts in the line. */
    function Start(): nat { if area.x < 0 then 0 else area.x / PerByte() }

    /** The pixels a row is shifted by, never for an area that starts left of the screen. */
    function Shift(): nat { if area.x < 0 then 0 else area.x % PerByte() }

    /** The column that shows the first column of the image. */
    function Left(): int { if area.x < 0 then 0 - PerByte() * Skipped() else area.x }

    /** Bytes of a row that reach the line. */
    function LineBytes(): int { Min(Stride() - Skipped(), LineSize() - Start()) }

    /** The padding of the last byte that was copied is masked, by the guard of the code. */
    predicate Masks() {
      area.width % PerByte() != 0 &&
      (if depth == FourBits then Left() / 2 + area.width / 2 + 1 < Width() else Stride() + 1 < Width())
    }

    /** The image ends here, with its padding if that is not masked. */
    function Right(): int { if Masks() then Left() + area.width else Left() + PerByte() * Stride() }

    /** From here on masking takes pixels: if the right edge cuts bytes off, the last byte copied has no padding. */
    function CutFrom(): int {
      if Masks() && Left() + area.width > Width() then Width() - PerByte() + Shift() + area.width % PerByte()
      else Width()
    }

    predicate Shown(p: int) {
      Left() <= p < Right() && p < CutFrom()
    }

    predicate InArea(i: int) {
      area.y <= i < area.y + area.height
    }

    /** Display line `i` gets image data. */
    predicate Drawn(i: int)
      requires Valid()
    {
      InArea(i) && (drawnLines.Some? ==> drawnLines.value[i - area.y])
    }

    /** Where image row `row` starts in the data. */
    function RowOffset(row: int): nat {
      if row <= 0 then 0 else RowOffset(row - 1) + Stride()
    }

    lemma {:induction false} RowInData(row: nat)
      requires Valid() && row < area.height
      ensures RowOffset(row) + Stride() <= |data|
    {
      OffsetsGrow(row + 1, area.height);
    }

    lemma {:induction false} OffsetsGrow(row: nat, later: nat)
      requires row <= later
      ensures RowOffset(row) <= RowOffset(later)
      decreases later
    {
      if row == later {
      } else {
        OffsetsGrow(row, later - 1);
      }
    }

    lemma {:induction false} OffsetIs(row: nat)
      ensures RowOffset(row) == Stride() * row
    {
      if row == 0 {
      } else {
        OffsetIs(row - 1);
      }
    }

    /** The grey value shown for pixel `p` of display line `i`: the image where it is shown, 15 beside it. */
    function Pixel(i: int, p: nat): bv8
      requires Gray() && InArea(i)
    {
      if Shown(p) then
        RowInData(i - area.y);
        NibbleAt(data, 2 * RowOffset(i - area.y) + (p - Left()))
      else 15
    }

    /** Whether pixel `p` of display line `i` is set in a 1 bit per pixel image; nothing is set beside it. */
    predicate Set(i: int, p: nat)
      requires Mono() && InArea(i)
    {
      Shown(p) && (RowInData(i - area.y); BitAt(data, 8 * RowOffset(i - area.y) + (p - Left())))
    }

    // ----- When that is the image in its place -----

    /** The image at the columns of the area, 15 beside it. */
    function ImagePixel(i: int, p: nat): bv8
      requires Gray() && InArea(i)
    {
      if area.x <= p < area.x + area.width then
        RowInData(i - area.y);
        NibbleAt(data, 2 * RowOffset(i - area.y) + (p - area.x))
      else 15
    }

    predicate ImageSet(i: int, p: nat)
      requires Mono() && InArea(i)
    {
      area.x <= p < area.x + area.width &&
      (RowInData(i - area.y); BitAt(data, 8 * RowOffset(i - area.y) + (p - area.x)))
    }

    /** An area that starts left of the screen starts at a byte. One whose width is no whole number of bytes has
        its padding masked if the padding is on the screen, and keeps the pixels at the right edge of the screen
        if it reaches beyond: nothing is masked, or only what the shift moves off. */
    predicate Clean() {
      && (area.x < 0 ==> area.x % PerByte() == 0)
      && (area.width % PerByte() != 0 ==>
            && (area.x + area.width < Width() ==> Masks())
            && (area.x + area.width > Width() ==>
                  !Masks() || area.x % PerByte() + area.width % PerByte() >= PerByte()))
    }

    lemma {:induction false} OnScreenIsClean()
      requires Valid() && 0 <= area.x && area.x + area.width <= 16 * groups
      ensures Clean()
    {
    }

    /** The condition in numbers: the guard of the mask is the code's. */
    lemma {:induction false} CleanInNumbers()
      requires Gray()
      ensures Clean() <==>
        && (area.x < 0 ==> area.x % 2 == 0)
        && !(area.width % 2 == 1 && area.x % 2 == 0 && area.x + area.width > 16 * groups
             && area.x / 2 + area.width / 2 + 1 < 16 * groups)
    {
      if area.x < 0 {
        WholeBytes(0 - area.x);
      }
    }

    lemma {:induction false} MonoCleanInNumbers()
      requires Mono()
      ensures Clean() <==>
        (area.width % 8 != 0 ==>
           if (area.width + 7) / 8 + 1 < 16 * groups
           then area.x + area.width <= 16 * groups || area.x % 8 + area.width % 8 >= 8
           else area.x + area.width >= 16 * groups)
    {
    }

    /** The image in numbers: its rows are padded to whole bytes. */
    lemma {:induction false} ImageInNumbers(i: int, p: nat)
      requires Gray() && InArea(i) && area.x <= p < area.x + area.width
      ensures var at := 2 * ((area.width + 1) / 2 * (i - area.y)) + (p - area.x);
        0 <= at < 2 * |data| && ImagePixel(i, p) == NibbleAt(data, at)
    {
      RowInData(i - area.y);
      OffsetIs(i - area.y);
    }

    lemma {:induction false} MonoImageInNumbers(i: int, p: nat)
      requires Mono() && InArea(i) && area.x <= p < area.x + area.width
      ensures var at := 8 * ((area.width + 7) / 8 * (i - area.y)) + (p - area.x);
        0 <= at < 8 * |data| && ImageSet(i, p) == BitAt(data, at)
    {
      RowInData(i - area.y);
      OffsetIs(i - area.y);
    }

    lemma {:induction false} StrideCovers()
      requires Valid()
      ensures PerByte() * Stride() >= area.width
      ensures area.width % PerByte() == 0 ==> PerByte() * Stride() == area.width
    {
    }

    static lemma {:induction false} WholeBytes(n: nat)
      ensures n % 2 == 0 ==> 2 * (n / 2) == n && (0 - n) % 2 == 0
      ensures n % 2 != 0 ==> 2 * (n / 2) == n - 1 && (0 - n) % 2 != 0
      ensures (0 - n) % 8 == 0 ==> 8 * (n / 8) == n
    {
    }

    lemma {:induction false} CleanLeft()
      requires Valid() && Clean()
      ensures Left() == area.x && Shift() == area.x % PerByte()
    {
      if area.x < 0 {
        WholeBytes(0 - area.x);
      }
    }

    lemma {:induction false} CleanEdges()
      requires Valid() && Clean()
      ensures Left() == area.x && CutFrom() >= Width()
    {
      CleanLeft();
    }

    lemma {:induction false} CleanShowsArea(p: nat)
      requires Valid() && Clean() && p < Width()
      ensures Left() == area.x && (Shown(p) <==> area.x <= p < area.x + area.width)
    {
      CleanEdges();
      StrideCovers();
    }

    /** The same job with other data. */
    function With(other: seq<bv8>): (job: Job)
      requires Valid() && |other| == |data|
      ensures job.Valid() && (Gray() ==> job.Gray()) && (Mono() ==> job.Mono())
    {
      var job := this.(data := other);
      assert job.Valid() by {
        if area.height > 0 {
          OffsetIs(area.height);
          job.OffsetIs(area.height);
        }
      }
      job
    }

    lemma {:induction false} WithIsClean(other: seq<bv8>)
      requires Valid() && |other| == |data|
      ensures With(other).Clean() <==> Clean()
    {
    }

    lemma {:induction false} CleanPixel(i: int, p: nat)
      requires Gray() && InArea(i) && Clean() && p < Width()
      ensures Pixel(i, p) == ImagePixel(i, p)
    {
      CleanShowsArea(p);
    }

    lemma {:induction false} CleanSet(i: int, p: nat)
      requires Mono() && InArea(i) && Clean() && p < Width()
      ensures Set(i, p) == ImageSet(i, p)
    {
      CleanShowsArea(p);
    }

    /** Data all of whose bytes are `v`. */
    static function Filled(v: bv8, n: nat): (d: seq<bv8>)
      ensures |d| == n
    {
      seq(n, k => v)
    }

    static lemma {:induction false} FilledNibble(v: bv8, d: seq<bv8>, offset: nat, q: nat)
      requires d == Filled(v, |d|) && offset + q / 2 < |d|
      ensures NibbleAt(d, 2 * offset + q) == if q % 2 == 0 then v & 0x0F else v >> 4
    {
      var n := 2 * offset + q;
      assert n % 2 == q % 2 && n / 2 == offset + q / 2;
    }

    lemma {:induction false} FilledPixel(v: bv8, i: int, p: nat)
      requires Gray() && InArea(i) && data == Filled(v, |data|)
      ensures Pixel(i, p) == if Shown(p) then (if (p - Left()) % 2 == 0 then v & 0x0F else v >> 4) else 15
    {
      RowInData(i - area.y);
      if Shown(p) {
        FilledNibble(v, data, RowOffset(i - area.y), p - Left());
      }
    }

    lemma {:induction false} FilledImage(v: bv8, i: int, p: nat)
      requires Gray() && InArea(i) && data == Filled(v, |data|) && area.x <= p < area.x + area.width
      ensures ImagePixel(i, p) == if (p - area.x) % 2 == 0 then v & 0x0F else v >> 4
    {
      RowInData(i - area.y);
      FilledNibble(v, data, RowOffset(i - area.y), p - area.x);
    }

    lemma {:induction false} FilledSet(i: int, p: nat)
      requires Mono() && InArea(i) && data == Filled(0xFF, |data|)
      ensures Set(i, p) == Shown(p)
      ensures ImageSet(i, p) == (area.x <= p < area.x + area.width)
    {
      if Shown(p) {
        RowInData(i - area.y);
        BitOfOnes((8 * RowOffset(i - area.y) + (p - Left())) % 8);
      }
      if area.x <= p < area.x + area.width {
        RowInData(i - area.y);
        BitOfOnes((8 * RowOffset(i - area.y) + (p - area.x)) % 8);
      }
    }

    lemma {:induction false} OddLeft()
      requires Gray() && area.x < 0 && area.x % 2 != 0
      ensures Left() == area.x + 1 && Left() % 2 == 0 && Shown(0)
    {
      WholeBytes(0 - area.x);
    }

    /** An area that starts left of the screen at an odd column is shown one column too far to the right. */
    lemma {:induction false} OddMisses(i: int)
      requires Gray() && InArea(i) && data == Filled(0xF0, |data|) && area.x < 0 && area.x % 2 != 0
      ensures Pixel(i, 0) != ImagePixel(i, 0)
    {
      OddLeft();
      FilledPixel(0xF0, i, 0);
      FilledImage(0xF0, i, 0);
    }

    /** One that is cut off at the right edge loses a column there. */
    lemma {:induction false} EdgeMisses(i: int)
      requires Gray() && InArea(i) && data == Filled(0, |data|) && !Clean() && (area.x < 0 ==> area.x % 2 == 0)
      ensures Pixel(i, Width() - 1) != ImagePixel(i, Width() - 1)
    {
      FilledImage(0, i, Width() - 1);
    }

    /** Data and a pixel for which the image is not shown in its place. */
    lemma {:induction false} ImageMissed(i: int) returns (other: seq<bv8>, p: nat)
      requires Gray() && InArea(i) && !Clean()
      ensures |other| == |data| && p < Width() && With(other).Pixel(i, p) != With(other).ImagePixel(i, p)
    {
      if area.x < 0 && area.x % 2 != 0 {
        other, p := Filled(0xF0, |data|), 0;
        With(other).OddMisses(i);
      } else {
        other, p := Filled(0, |data|), Width() - 1;
        With(other).EdgeMisses(i);
      }
    }

    /** Whatever the data, the image is shown in its place if and only if the area is clean. */
    lemma {:induction false} CleanDecides(i: int)
      requires Gray() && InArea(i)
      ensures (forall other: seq<bv8>, p: nat | |other| == |data| && p < Width() ::
                 With(other).Pixel(i, p) == With(other).ImagePixel(i, p)) <==> Clean()
    {
      if Clean() {
        forall other: seq<bv8>, p: nat | |other| == |data| && p < Width()
          ensures With(other).Pixel(i, p) == With(other).ImagePixel(i, p)
        {
          WithIsClean(other);
          With(other).CleanPixel(i, p);
        }
      } else {
        var other, p := ImageMissed(i);
        assert With(other).Pixel(i, p) != With(other).ImagePixel(i, p);
      }
    }

    lemma {:induction false} BitMissed(i: int) returns (other: seq<bv8>, p: nat)
      requires Mono() && InArea(i) && !Clean()
      ensures |other| == |data| && p < Width() && With(other).Set(i, p) != With(other).ImageSet(i, p)
    {
      other := Filled(0xFF, |data|);
      p := if area.x + area.width > Width() then Width() - 1 else area.x + area.width;
      With(other).FilledSet(i, p);
    }

    /** The same for 1 bit per pixel. */
    lemma {:induction false} MonoCleanDecides(i: int)
      requires Mono() && InArea(i)
      ensures (forall other: seq<bv8>, p: nat | |other| == |data| && p < Width() ::
                 With(other).Set(i, p) == With(other).ImageSet(i, p)) <==> Clean()
    {
      if Clean() {
        forall other: seq<bv8>, p: nat | |other| == |data| && p < Width()
          ensures With(other).Set(i, p) == With(other).ImageSet(i, p)
        {
          WithIsClean(other);
          With(other).CleanSet(i, p);
        }
      } else {
        var other, p := BitMissed(i);
        assert With(other).Set(i, p) != With(other).ImageSet(i, p);
      }
    }

    // ----- The lines of a draw -----

    /** Display line `i` as a buffer of 4-bit pixels. */
    function LineOf(i: int): (line: Line)
      requires Gray() && InArea(i)
      ensures |line| == LineSize()
    {
      seq(LineSize(), b requires 0 <= b < LineSize() => PixelPair(i, b))
    }

    function PixelPair(i: int, b: nat): bv8
      requires Gray() && InArea(i)
    {
      Pixel(i, 2 * b) | (Pixel(i, 2 * b + 1) << 4)
    }

    lemma {:induction false} PixelIsNibble(i: int, p: nat)
      requires Gray() && InArea(i)
      ensures Pixel(i, p) & 0x0F == Pixel(i, p)
    {
    }

    /** The line buffer holds, as nibbles, exactly the meant pixels. */
    lemma {:induction false} LinePixels(i: int, p: nat)
      requires Gray() && InArea(i) && p < Width()
      ensures NibbleAt(LineOf(i), p) == Pixel(i, p)
    {
      PixelIsNibble(i, 2 * (p / 2));
      PixelIsNibble(i, 2 * (p / 2) + 1);
      assert LineOf(i)[p / 2] == PixelPair(i, p / 2);
      Pack(Pixel(i, 2 * (p / 2)), Pixel(i, 2 * (p / 2) + 1));
    }

    static lemma Pack(low: bv8, high: bv8)
      requires low & 0x0F == low && high & 0x0F == high
      ensures (low | (high << 4)) & 0x0F == low && (low | (high << 4)) >> 4 == high
    {
    }

    /** Conversely, a buffer whose nibbles are the meant pixels is the line. */
    lemma {:induction false} LineFromPixels(i: int, line: Line)
      requires Gray() && InArea(i) && |line| == LineSize()
      requires forall p: nat | p < Width() :: NibbleAt(line, p) == Pixel(i, p)
      ensures line == LineOf(i)
    {
      forall b | 0 <= b < |line| ensures line[b] == LineOf(i)[b] {
        assert NibbleAt(line, 2 * b) == Pixel(i, 2 * b);
        assert NibbleAt(line, 2 * b + 1) == Pixel(i, 2 * b + 1);
        SameByte(i, line, b);
      }
    }

    lemma {:induction false} SameByte(i: int, line: Line, b: nat)
      requires Gray() && InArea(i) && b < |line|
      requires NibbleAt(line, 2 * b) == Pixel(i, 2 * b) && NibbleAt(line, 2 * b + 1) == Pixel(i, 2 * b + 1)
      ensures line[b] == PixelPair(i, b)
    {
      Unpack(line[b]);
    }

    static lemma Unpack(b: bv8)
      ensures b == (b & 0x0F) | ((b >> 4) << 4)
    {
    }

    /** The lines of the drawn display lines first..end-1, in order. */
    function Lines(first: int, end: int): seq<Line>
      requires Gray()
      decreases end - first
    {
      if first >= end then []
      else if Drawn(first) then [LineOf(first)] + Lines(first + 1, end)
      else Lines(first + 1, end)
    }

    lemma {:induction false} LinesExtend(first: int, end: int)
      requires Gray() && first <= end
      ensures Lines(first, end + 1) == Lines(first, end) + (if Drawn(end) then [LineOf(end)] else [])
      decreases end - first
    {
      if first == end {
      } else {
        LinesExtend(first + 1, end);
      }
    }
  }
}
