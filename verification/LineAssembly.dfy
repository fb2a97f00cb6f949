/** How the line provider turns image rows into full-width display lines, one buffer reused for all rows. */
module LineAssembly {
  import opened Arith
  import opened Bits
  import opened DrawJob
  import opened Shifts

  /** Where an image row lies: columns counted in bytes of the data and in bytes of the line. */
  lemma {:induction false} RowPlace(job: Job)
    requires job.Gray()
    ensures 1 <= job.LineBytes() && job.Start() + job.LineBytes() <= job.LineSize()
    ensures job.Left() == 2 * (job.Start() - job.Skipped()) + job.Shift()
    ensures job.Skipped() + job.LineBytes() <= job.Stride()
  {
  }

  /** Row `i` is copied from `ptr` on. */
  predicate RowAt(job: Job, ptr: nat, i: int)
    requires job.Gray() && job.InArea(i)
  {
    ptr == job.Skipped() + job.RowOffset(i - job.area.y) && ptr + job.LineBytes() <= |job.data|
  }

  /** The line buffer between two rows: white (15) everywhere but where the next row is copied,
      and white everywhere if rows are shifted after copying. */
  ghost predicate Reusable(job: Job, line: Line)
    requires job.Gray()
  {
    && |line| == job.LineSize()
    && forall b | 0 <= b < |line| ::
         (job.Shift() == 1 || b < job.Start() || b >= job.Start() + job.LineBytes()) ==> line[b] == 0xFF
  }

  /** Pixel `p` of the buffer is the one to be shown, one place early if the row is shifted. */
  ghost predicate PixelCopied(job: Job, line: Line, i: int, p: nat)
    requires job.Gray() && job.InArea(i) && |line| == job.LineSize() && p + job.Shift() < job.Width()
  {
    NibbleAt(line, p) == job.Pixel(i, p + job.Shift())
  }

  /** The buffer after copying and masking row `i`, before any shift: the image starts at a byte boundary. */
  ghost predicate Copied(job: Job, line: Line, i: int)
    requires job.Gray() && job.InArea(i)
  {
    && |line| == job.LineSize()
    && (forall p: nat | p + job.Shift() < job.Width() :: PixelCopied(job, line, i, p))
  }

  /** Byte `b` of the buffer after copying the row at `ptr` and masking its last nibble. */
  function CopiedByte(job: Job, ptr: nat, b: nat): bv8
    requires job.Gray() && ptr + job.LineBytes() <= |job.data|
  {
    if b < job.Start() || b >= job.Start() + job.LineBytes() then 0xFF
    else
      var d := job.data[ptr + (b - job.Start())];
      if job.Masks() && b == job.Start() + job.LineBytes() - 1 then d | 0xF0 else d
  }

  /** Copy row `i` (starting at `ptr` in the data) into the buffer and mask the last nibble. */
  method CopyRow(job: Job, line: array<bv8>, ptr: nat, i: int)
    requires job.Gray() && job.InArea(i) && RowAt(job, ptr, i)
    requires Reusable(job, line[..])
    modifies line
    ensures Copied(job, line[..], i)
    ensures forall b | 0 <= b < line.Length ::
      (b < job.Start() || b >= job.Start() + job.LineBytes()) ==> line[b] == 0xFF
  {
    CopyData(job, line, ptr);
    CopiedPixels(job, line[..], ptr, i);
  }

  /** Where the row goes in the line, and how many bytes of it. */
  method PlaceRow(job: Job) returns (start: nat, lineBytes: nat)
    requires job.Gray()
    ensures start == job.Start() && lineBytes == job.LineBytes()
  {
    var area := job.area;
    RowPlace(job);
    start, lineBytes := 0, area.width / 2 + area.width % 2;
    if area.x >= 0 {
      start := area.x / 2;
    } else {
      lineBytes := lineBytes - (0 - area.x) / 2;
    }
    lineBytes := Min(lineBytes, job.LineSize() - start);
  }

  method CopyData(job: Job, line: array<bv8>, ptr: nat)
    requires job.Gray() && ptr + job.LineBytes() <= |job.data| && Reusable(job, line[..])
    modifies line
    ensures forall b | 0 <= b < line.Length :: line[b] == CopiedByte(job, ptr, b)
  {
    var area := job.area;
    var start, lineBytes := PlaceRow(job);
    RowPlace(job);
    for j := 0 to lineBytes
      invariant forall b | 0 <= b < line.Length ::
        line[b] == if start <= b < start + j then job.data[ptr + (b - start)] else old(line[b])
    {
      line[start + j] := job.data[ptr + j];
    }
    if area.width % 2 == 1 && Truncated(area.x, 2) + area.width / 2 + 1 < job.Width() {
      line[start + lineBytes - 1] := line[start + lineBytes - 1] | 0xF0;
    }
  }

  lemma {:induction false} CopiedPixels(job: Job, line: Line, ptr: nat, i: int)
    requires job.Gray() && job.InArea(i) && RowAt(job, ptr, i)
    requires |line| == job.LineSize()
    requires forall b | 0 <= b < |line| :: line[b] == CopiedByte(job, ptr, b)
    ensures Copied(job, line, i)
  {
    forall p: nat | p + job.Shift() < job.Width() ensures PixelCopied(job, line, i, p) {
      assert line[p / 2] == CopiedByte(job, ptr, p / 2);
      CopiedPixel(job, line, ptr, i, p);
    }
  }

  lemma {:induction false} CopiedPixel(job: Job, line: Line, ptr: nat, i: int, p: nat)
    requires job.Gray() && job.InArea(i) && RowAt(job, ptr, i) && p + job.Shift() < job.Width()
    requires |line| == job.LineSize()
    requires line[p / 2] == CopiedByte(job, ptr, p / 2)
    ensures PixelCopied(job, line, i, p)
  {
    RowPlace(job);
    ShownWhere(job, p);
    var b, q := p / 2, p + job.Shift();
    if job.Shown(q) {
      PixelInRow(job, ptr, i, p);
    } else {
      assert job.Pixel(i, q) == 15;
    }
  }

  /** The pixels shown are the copied nibbles that are not masked. */
  lemma {:induction false} ShownWhere(job: Job, p: nat)
    requires job.Gray() && p + job.Shift() < job.Width()
    ensures job.Shown(p + job.Shift()) <==>
      job.Start() <= p / 2 < job.Start() + job.LineBytes()
      && !(job.Masks() && p / 2 == job.Start() + job.LineBytes() - 1 && p % 2 == 1)
  {
    RowPlace(job);
  }

  lemma {:induction false} PixelInRow(job: Job, ptr: nat, i: int, p: nat)
    requires job.Gray() && job.InArea(i) && RowAt(job, ptr, i)
    requires p + job.Shift() < job.Width() && job.Shown(p + job.Shift())
    ensures var at := ptr + (p / 2 - job.Start());
      0 <= at < |job.data| &&
      job.Pixel(i, p + job.Shift()) == if p % 2 == 0 then job.data[at] & 0x0F else job.data[at] >> 4
  {
    RowPlace(job);
    ShownWhere(job, p);
    var n := 2 * job.RowOffset(i - job.area.y) + (p + job.Shift() - job.Left());
    assert n == 2 * (ptr - job.Start()) + p;
    assert n / 2 == ptr - job.Start() + p / 2 && n % 2 == p % 2;
  }

  /** Without a shift the copied line is already the line to be shown. */
  lemma {:induction false} CopiedEven(job: Job, line: Line, i: int)
    requires job.Gray() && job.InArea(i) && job.Shift() == 0 && Copied(job, line, i)
    ensures line == job.LineOf(i)
  {
    forall p: nat | p < job.Width() ensures NibbleAt(line, p) == job.Pixel(i, p) {
      assert PixelCopied(job, line, i, p);
    }
    job.LineFromPixels(i, line);
  }

  /** The pixels a copied line has, the first one white in front. */
  lemma {:induction false} CopiedEarly(job: Job, before: Line, i: int, pixels: seq<bv8>)
    requires job.Gray() && job.InArea(i) && job.Shift() == 1 && Copied(job, before, i)
    requires |pixels| == job.Width() + 1 && pixels[job.Width()] == NibbleAt(before, job.Width() - 1)
    requires forall p: nat | p < job.Width() :: pixels[p] == job.Pixel(i, p)
    ensures forall q: nat | q < job.Width() :: NibbleAt(before, q) == pixels[q + 1]
    ensures forall q: nat | q <= 2 * job.Start() :: pixels[q] == 15
  {
    forall q: nat | q < job.Width() ensures NibbleAt(before, q) == pixels[q + 1] {
      if q + 1 < job.Width() {
        assert PixelCopied(job, before, i, q);
      }
    }
  }

  /** Shifting the copied bytes and one more byte (if there is one) by a nibble moves the image to its odd column. */
  lemma {:induction false} CopiedOdd(job: Job, before: Line, line: Line, len: nat, i: int)
    requires job.Gray() && job.InArea(i) && job.Shift() == 1 && Copied(job, before, i)
    requires |line| == |before|
    requires len == Min(job.LineBytes() + 1, |line| - job.Start())
    requires forall b | job.Start() + job.LineBytes() <= b < |before| :: before[b] == 0xFF
    requires line[..job.Start()] == before[..job.Start()]
    requires line[job.Start()..job.Start() + len] == Shifted(before[job.Start()..job.Start() + len], 0x0F, 4)
    requires line[job.Start() + len..] == before[job.Start() + len..]
    ensures line == job.LineOf(i)
  {
    var pixels := seq(job.Width(), p requires 0 <= p => job.Pixel(i, p)) + [NibbleAt(before, job.Width() - 1)];
    CopiedEarly(job, before, i, pixels);
    RowPlace(job);
    forall p: nat | p < job.Width() ensures NibbleAt(line, p) == job.Pixel(i, p) {
      ShiftedPixel(before, line, job.Start(), len, pixels, p);
    }
    job.LineFromPixels(i, line);
  }

  /** A buffer holding each pixel one place early, shifted from byte `start` on for `len` bytes,
      holds it in its place, if there is only white around the shifted bytes. */
  lemma {:induction false} ShiftedPixel(before: Line, line: Line, start: nat, len: nat, pixels: seq<bv8>, p: nat)
    requires |line| == |before| && |pixels| == 2 * |line| + 1 && p < 2 * |line|
    requires len > 0 && start + len <= |line|
    requires forall q: nat | q < 2 * |line| :: NibbleAt(before, q) == pixels[q + 1]
    requires forall q: nat | q <= 2 * start :: pixels[q] == 15
    requires forall b | start + len - 1 <= b < |line| && start + len < |line| :: before[b] == 0xFF
    requires line[..start] == before[..start]
    requires line[start..start + len] == Shifted(before[start..start + len], 0x0F, 4)
    requires line[start + len..] == before[start + len..]
    ensures NibbleAt(line, p) == pixels[p]
  {
    if p < 2 * start {
      NibbleInSlice(line, 0, start, p);
      NibbleInSlice(before, 0, start, p);
      assert NibbleAt(before, p) == pixels[p + 1];
    } else if p < 2 * (start + len) {
      ShiftedInside(before, line, start, len, p - 2 * start);
      if p > 2 * start {
        assert NibbleAt(before, p - 1) == pixels[p];
      }
    } else {
      NibbleInSlice(line, start + len, |line|, p - 2 * (start + len));
      NibbleInSlice(before, start + len, |line|, p - 2 * (start + len));
      assert before[(p - 1) / 2] == 0xFF && before[p / 2] == 0xFF;
      assert NibbleAt(before, p - 1) == pixels[p];
    }
  }

  lemma {:induction false} ShiftedInside(before: Line, line: Line, start: nat, len: nat, q: nat)
    requires |line| == |before| && start + len <= |line| && q < 2 * len
    requires line[start..start + len] == Shifted(before[start..start + len], 0x0F, 4)
    ensures NibbleAt(line, 2 * start + q) == if q == 0 then 15 else NibbleAt(before, 2 * start + q - 1)
  {
    NibbleMoved(before[start..start + len], q);
    NibbleInSlice(line, start, start + len, q);
    if q > 0 {
      NibbleInSlice(before, start, start + len, q - 1);
    }
  }

  method FillWhite(line: array<bv8>)
    modifies line
    ensures forall b | 0 <= b < line.Length :: line[b] == 0xFF
  {
    for b := 0 to line.Length
      invariant forall c | 0 <= c < b :: line[c] == 0xFF
    {
      line[b] := 0xFF;
    }
  }

  /** Where the data of display line `i` starts: rows above the screen are skipped, rows below the area are not. */
  function RowStart(job: Job, i: int): nat
    requires job.Valid()
  {
    job.Skipped() + job.RowOffset(Min(i - job.area.y, Max(job.area.height, 0 - job.area.y)))
  }

  lemma {:induction false} NextRowStart(job: Job, i: nat)
    requires job.Valid()
    ensures RowStart(job, i + 1) == if job.InArea(i) then RowStart(job, i) + job.Stride() else RowStart(job, i)
    ensures job.InArea(i) ==>
      RowStart(job, i) == job.Skipped() + job.RowOffset(i - job.area.y)
      && job.RowOffset(i - job.area.y) + job.Stride() <= |job.data|
  {
    if job.InArea(i) {
      job.RowInData(i - job.area.y);
    }
  }

  /** The data pointer when the loop over the display lines starts. */
  method FirstRow(job: Job) returns (ptr: nat)
    requires job.Valid()
    ensures ptr == RowStart(job, 0)
  {
    var area := job.area;
    ptr := 0;
    if area.x < 0 {
      ptr := ptr + (0 - area.x) / job.PerByte();
    }
    if area.y < 0 {
      job.OffsetIs(0 - area.y);
      ptr := ptr + job.Stride() * (0 - area.y);
    }
  }

  /** Assemble one drawn line. The buffer ends up fit for the next row. */
  method ProvideLine(job: Job, line: array<bv8>, ptr: nat, i: int) returns (sent: Line)
    requires job.Gray() && job.InArea(i) && RowAt(job, ptr, i)
    requires Reusable(job, line[..])
    modifies line
    ensures sent == job.LineOf(i)
    ensures Reusable(job, line[..])
  {
    var area := job.area;
    if area.width == job.Width() && area.x == 0 {
      WholeRow(job, ptr, i);
      sent := job.data[ptr..ptr + job.LineSize()];
    } else {
      CopyRow(job, line, ptr, i);
      if Rest(area.x, 2) == 1 && area.x < job.Width() {
        sent := ShiftRow(job, line, i);
      } else {
        CopiedEven(job, line[..], i);
        sent := line[..];
      }
    }
  }

  method ShiftRow(job: Job, line: array<bv8>, i: int) returns (sent: Line)
    requires job.Gray() && job.InArea(i) && job.Shift() == 1 && Copied(job, line[..], i)
    requires forall b | job.Start() + job.LineBytes() <= b < line.Length :: line[b] == 0xFF
    modifies line
    ensures sent == job.LineOf(i)
    ensures Reusable(job, line[..])
  {
    ghost var before := line[..];
    var start, lineBytes := PlaceRow(job);
    RowPlace(job);
    var len := Min(lineBytes + 1, job.LineSize() - start);
    NibbleShiftRight(line, start, len);
    CopiedOdd(job, before, line[..], len, i);
    sent := line[..];
    FillWhite(line);
  }

  /** The provider's loop over all display lines: the lines it queues, in order, are exactly the lines to be
      shown on the drawn display lines, for every area that reaches the screen and across buffer reuse. */
  method ProvideLines(job: Job) returns (queued: seq<Line>)
    requires job.Gray()
    ensures queued == job.Lines(0, job.screenHeight)
  {
    queued := [];
    var line := new bv8[job.LineSize()];
    FillWhite(line);
    var area := job.area;
    var ptr := FirstRow(job);
    for i := 0 to job.screenHeight
      invariant queued == job.Lines(0, i)
      invariant Reusable(job, line[..])
      invariant ptr == RowStart(job, i)
    {
      job.LinesExtend(0, i);
      NextRowStart(job, i);
      if i < area.y || i >= area.y + area.height {
        continue;
      }
      if job.drawnLines.Some? && !job.drawnLines.value[i - area.y] {
        ptr := ptr + (area.width / 2 + area.width % 2);
        continue;
      }
      RowPlace(job);
      var sent := ProvideLine(job, line, ptr, i);
      ptr := ptr + (area.width / 2 + area.width % 2);
      queued := queued + [sent];
    }
  }

  /** A row of full width is sent straight from the image data. */
  lemma {:induction false} PixelInWholeRow(job: Job, ptr: nat, i: int, p: nat)
    requires job.Gray() && job.InArea(i) && job.area.x == 0 && job.area.width == job.Width() && p < job.Width()
    requires RowAt(job, ptr, i)
    ensures 2 * ptr + p < 2 * |job.data| && job.Pixel(i, p) == NibbleAt(job.data, 2 * ptr + p)
  {
  }

  lemma {:induction false} WholeRow(job: Job, ptr: nat, i: int)
    requires job.Gray() && job.InArea(i) && job.area.x == 0 && job.area.width == job.Width()
    requires RowAt(job, ptr, i)
    ensures job.LineBytes() == job.LineSize()
    ensures job.data[ptr..ptr + job.LineSize()] == job.LineOf(i)
  {
    var line := job.data[ptr..ptr + job.LineSize()];
    forall p: nat | p < job.Width() ensures NibbleAt(line, p) == job.Pixel(i, p) {
      PixelInWholeRow(job, ptr, i, p);
      NibbleInSlice(job.data, ptr, ptr + job.LineSize(), p);
    }
    job.LineFromPixels(i, line);
  }
}
