/** Drawing with 1 bit per pixel: line assembly by bits, and the conversion of set bits to actions. */
module OneBit {
  import opened Bits
  import opened DrawJob
  import opened Shifts
  import opened RowFormat
  import Arith
  import Lut

  // ----- From bits to actions -----

  /** Table entry for one byte of pixels: bit `n` becomes field `n`, 01 to darken or 10 to lighten. */
  function Entry(v: bv8, white: bool): bv32
  {
    var e := Part(v, 0) | Part(v, 1) | Part(v, 2) | Part(v, 3) | Part(v, 4) | Part(v, 5) | Part(v, 6) | Part(v, 7);
    if white then e << 1 else e
  }

  function Part(v: bv8, n: nat): bv32
    requires n < 8
  {
    match n
    case 0 => if BitOf(v, 0) then 0x0001 else 0
    case 1 => if BitOf(v, 1) then 0x0004 else 0
    case 2 => if BitOf(v, 2) then 0x0010 else 0
    case 3 => if BitOf(v, 3) then 0x0040 else 0
    case 4 => if BitOf(v, 4) then 0x0100 else 0
    case 5 => if BitOf(v, 5) then 0x0400 else 0
    case 6 => if BitOf(v, 6) then 0x1000 else 0
    case 7 => if BitOf(v, 7) then 0x4000 else 0
  }

  function White(mode: Lut.DrawMode): bool
  {
    mode == Lut.WhiteOnBlack || mode == Lut.WhiteOnWhite
  }

  lemma {:induction false} EntryField0(v: bv8, white: bool)
    ensures Field(ByteOf(Entry(v, white), 0), 0) == if BitOf(v, 0) then (if white then 2 else 1) else 0
  {
  }

  lemma {:induction false} EntryField1(v: bv8, white: bool)
    ensures Field(ByteOf(Entry(v, white), 0), 1) == if BitOf(v, 1) then (if white then 2 else 1) else 0
  {
  }

  lemma {:induction false} EntryField2(v: bv8, white: bool)
    ensures Field(ByteOf(Entry(v, white), 0), 2) == if BitOf(v, 2) then (if white then 2 else 1) else 0
  {
  }

  lemma {:induction false} EntryField3(v: bv8, white: bool)
    ensures Field(ByteOf(Entry(v, white), 0), 3) == if BitOf(v, 3) then (if white then 2 else 1) else 0
  {
  }

  lemma {:induction false} EntryField4(v: bv8, white: bool)
    ensures Field(ByteOf(Entry(v, white), 1), 0) == if BitOf(v, 4) then (if white then 2 else 1) else 0
  {
  }

  lemma {:induction false} EntryField5(v: bv8, white: bool)
    ensures Field(ByteOf(Entry(v, white), 1), 1) == if BitOf(v, 5) then (if white then 2 else 1) else 0
  {
  }

  lemma {:induction false} EntryField6(v: bv8, white: bool)
    ensures Field(ByteOf(Entry(v, white), 1), 2) == if BitOf(v, 6) then (if white then 2 else 1) else 0
  {
  }

  lemma {:induction false} EntryField7(v: bv8, white: bool)
    ensures Field(ByteOf(Entry(v, white), 1), 3) == if BitOf(v, 7) then (if white then 2 else 1) else 0
  {
  }

  lemma {:induction false} LowFields(v: bv8, white: bool, n: nat)
    requires n < 4
    ensures Field(ByteOf(Entry(v, white), 0), n) == if BitOf(v, n) then (if white then 2 else 1) else 0
  {
    match n
    case 0 => EntryField0(v, white);
    case 1 => EntryField1(v, white);
    case 2 => EntryField2(v, white);
    case 3 => EntryField3(v, white);
  }

  lemma {:induction false} HighFields(v: bv8, white: bool, n: nat)
    requires 4 <= n < 8
    ensures Field(ByteOf(Entry(v, white), 1), n - 4) == if BitOf(v, n) then (if white then 2 else 1) else 0
  {
    match n
    case 4 => EntryField4(v, white);
    case 5 => EntryField5(v, white);
    case 6 => EntryField6(v, white);
    case 7 => EntryField7(v, white);
  }

  lemma {:induction false} EntryFields(v: bv8, mode: Lut.DrawMode, n: nat)
    requires mode != Lut.UnknownMode && n < 8
    ensures Field(ByteOf(Entry(v, White(mode)), n / 4), n % 4) == if BitOf(v, n) then Lut.Action(mode) else 0
  {
    if n < 4 {
      LowFields(v, White(mode), n);
    } else {
      HighFields(v, White(mode), n);
    }
  }

  /** The two 256-entry tables of the driver. */
  function Table(white: bool): (t: seq<bv32>)
    ensures |t| == 256
  {
    seq(256, v requires 0 <= v < 256 => Entry(v as bv8, white))
  }

  lemma {:induction false} TableEntry(white: bool, v: bv8)
    ensures Table(white)[v as nat] == Entry(v, white)
  {
  }

  ghost predicate HalfWordTable(t: seq<bv32>)
  {
    |t| == 256 && forall v | 0 <= v < 256 :: t[v] & 0xFFFF0000 == 0
  }

  lemma {:induction false} TableIsHalfWords(white: bool)
    ensures HalfWordTable(Table(white))
  {
    forall v | 0 <= v < 256 ensures Table(white)[v] & 0xFFFF0000 == 0 {
      EntryIsHalfWord(v as bv8, white);
    }
  }

  lemma {:induction false} EntryIsHalfWord(v: bv8, white: bool)
    ensures Entry(v, white) & 0xFFFF0000 == 0
  {
  }

  /** The line with every byte replaced by the two low bytes of its table entry: four pixels per byte. */
  function Spread(line: seq<bv8>, t: seq<bv32>): (r: Row)
    requires |t| == 256
    ensures |r| == 2 * |line|
  {
    seq(2 * |line|, b requires 0 <= b < 2 * |line| => ByteOf(t[line[b / 2] as nat], b % 2))
  }

  lemma {:induction false} HalfWords(e1: bv32, e2: bv32)
    requires e1 & 0xFFFF0000 == 0 && e2 & 0xFFFF0000 == 0
    ensures (e1 << 16) | e2 == SwapHalves(WordOf(ByteOf(e1, 0), ByteOf(e1, 1), ByteOf(e2, 0), ByteOf(e2, 1)))
  {
  }

  /** The row the bus gets for a 1 bit per pixel line. */
  function Input1bpp(line: seq<bv8>, t: seq<bv32>): (r: Row)
    requires |line| % 2 == 0 && |t| == 256
    ensures |r| == 2 * |line|
  {
    Reordered(Spread(line, t))
  }

  lemma {:induction false} InputWordBytes(line: seq<bv8>, t: seq<bv32>, j: nat)
    requires |line| % 2 == 0 && 2 * j + 1 < |line| && HalfWordTable(t)
    ensures HoldsWord(Input1bpp(line, t), j, (t[line[2 * j] as nat] << 16) | t[line[2 * j + 1] as nat])
  {
    HalfWords(t[line[2 * j] as nat], t[line[2 * j + 1] as nat]);
    SpreadWord(line, t, j);
    SwappedWord(Spread(line, t), j);
  }

  /** Convert a 1 bit per pixel line. An unknown mode leaves the row as it is. */
  method CalcInput1bpp(line: seq<bv8>, input: array<bv8>, mode: Lut.DrawMode)
    requires input.Length == 2 * |line| && |line| % 2 == 0
    modifies input
    ensures input[..] == if mode == Lut.UnknownMode then old(input[..]) else Input1bpp(line, Table(White(mode)))
  {
    if mode == Lut.UnknownMode {
      return;
    }
    var lut := Table(mode == Lut.WhiteOnBlack || mode == Lut.WhiteOnWhite);
    TableIsHalfWords(White(mode));
    Convert(line, input, lut);
  }

  method Convert(line: seq<bv8>, input: array<bv8>, lut: seq<bv32>)
    requires input.Length == 2 * |line| && |line| % 2 == 0 && HalfWordTable(lut)
    modifies input
    ensures input[..] == Input1bpp(line, lut)
  {
    for j := 0 to |line| / 2
      invariant input[..4 * j] == Input1bpp(line, lut)[..4 * j]
    {
      var v1, v2 := line[2 * j] as nat, line[2 * j + 1] as nat;
      InputWordBytes(line, lut, j);
      var w := (lut[v1] << 16) | lut[v2];
      StoreNext(input, j, w, Input1bpp(line, lut));
    }
  }

  lemma {:induction false} SpreadWord(line: seq<bv8>, t: seq<bv32>, j: nat)
    requires 2 * j + 1 < |line| && |t| == 256
    ensures Spread(line, t)[4 * j] == ByteOf(t[line[2 * j] as nat], 0)
    ensures Spread(line, t)[4 * j + 1] == ByteOf(t[line[2 * j] as nat], 1)
    ensures Spread(line, t)[4 * j + 2] == ByteOf(t[line[2 * j + 1] as nat], 0)
    ensures Spread(line, t)[4 * j + 3] == ByteOf(t[line[2 * j + 1] as nat], 1)
  {
  }

  /** The 1 bit path yields the same pixel-to-field layout as the 4 bit path. */
  lemma {:induction false} SpreadPixels(line: seq<bv8>, mode: Lut.DrawMode, p: nat)
    requires |line| % 2 == 0 && p < 8 * |line| && mode != Lut.UnknownMode
    ensures PanelField(Input1bpp(line, Table(White(mode))), p) == if BitAt(line, p) then Lut.Action(mode) else 0
  {
    var t, v := Table(White(mode)), line[p / 8];
    ReorderedPixels(Spread(line, t), p);
    SpreadField(line, t, p);
    TableEntry(White(mode), v);
    EntryFields(v, mode, p % 8);
  }

  lemma {:induction false} SpreadField(line: seq<bv8>, t: seq<bv32>, p: nat)
    requires |t| == 256 && p < 8 * |line|
    ensures Field(Spread(line, t)[p / 4], p % 4) == Field(ByteOf(t[line[p / 8] as nat], p % 8 / 4), p % 8 % 4)
  {
    EightFields(p);
  }

  lemma {:induction false} EightFields(p: nat)
    ensures p / 4 / 2 == p / 8 && p / 4 % 2 == p % 8 / 4 && p % 4 == p % 8 % 4
  {
  }

  // ----- Line assembly -----

  /** Where an image row lies: columns counted in bytes of the data and in bytes of the line. */
  lemma {:induction false} RowPlace(job: Job)
    requires job.Mono()
    ensures 1 <= job.LineBytes() && job.Start() + job.LineBytes() <= job.LineSize()
    ensures job.Left() == 8 * (job.Start() - job.Skipped()) + job.Shift() == job.area.x
    ensures job.Skipped() + job.LineBytes() <= job.Stride()
  {
    if job.area.x < 0 {
      LeftOfScreen(0 - job.area.x, job.area.width);
    } else {
      RightOfEdge(job.area.x, job.groups);
    }
  }

  lemma {:induction false} LeftOfScreen(off: nat, width: nat)
    requires (0 - off) % 8 == 0 && off < width
    ensures 8 * (off / 8) == off && off / 8 < width / 8 + (if width % 8 > 0 then 1 else 0)
  {
  }

  lemma {:induction false} RightOfEdge(x: nat, groups: nat)
    requires x < 16 * groups
    ensures x / 8 < 2 * groups && 8 * (x / 8) + x % 8 == x
  {
  }

  /** Row `i` is copied from `ptr` on. */
  predicate RowAt(job: Job, ptr: nat, i: int)
    requires job.Mono() && job.InArea(i)
  {
    ptr == job.Skipped() + job.RowOffset(i - job.area.y) && ptr + job.LineBytes() <= |job.data|
  }

  /** The line buffer between two rows: clear everywhere but where the next row is copied,
      and clear everywhere if rows are shifted after copying. */
  ghost predicate Reusable(job: Job, line: Line)
    requires job.Mono()
  {
    && |line| == job.LineSize()
    && forall b | 0 <= b < |line| ::
         (job.Shift() != 0 || b < job.Start() || b >= job.Start() + job.LineBytes()) ==> line[b] == 0
  }

  ghost predicate BitCopied(job: Job, line: Line, i: int, p: nat)
    requires job.Mono() && job.InArea(i) && |line| == job.LineSize() && p + job.Shift() < job.Width()
  {
    BitAt(line, p) == job.Set(i, p + job.Shift())
  }

  /** The buffer after copying and masking row `i`: every pixel early by the shift. */
  ghost predicate Copied(job: Job, line: Line, i: int)
    requires job.Mono() && job.InArea(i)
  {
    |line| == job.LineSize() && forall p: nat | p + job.Shift() < job.Width() :: BitCopied(job, line, i, p)
  }

  method LowBits(n: nat) returns (mask: bv8)
    requires n < 8
    ensures forall q | 0 <= q < 8 :: BitOf(mask, q) == (q < n)
  {
    mask := 0;
    for s := 0 to n
      invariant mask == LowMask(s)
    {
      mask := (mask << 1) | 1;
    }
    MaskBits(n);
  }

  function LowMask(n: nat): bv8
    requires n < 8
  {
    match n
    case 0 => 0
    case 1 => 1
    case 2 => 3
    case 3 => 7
    case 4 => 15
    case 5 => 31
    case 6 => 63
    case 7 => 127
  }

  lemma {:induction false} MaskBits(n: nat)
    requires n < 8
    ensures forall q | 0 <= q < 8 :: BitOf(LowMask(n), q) == (q < n)
  {
    forall q | 0 <= q < 8 ensures BitOf(LowMask(n), q) == (q < n) {
      assert q == 0 || q == 1 || q == 2 || q == 3 || q == 4 || q == 5 || q == 6 || q == 7;
    }
  }

  /** Byte `b` of the buffer after copying the row at `ptr` and clearing the bits masked in its last byte. */
  function CopiedByte(job: Job, ptr: nat, mask: bv8, b: nat): bv8
    requires job.Mono() && ptr + job.LineBytes() <= |job.data|
  {
    if b < job.Start() || b >= job.Start() + job.LineBytes() then 0
    else
      var d := job.data[ptr + (b - job.Start())];
      if job.Masks() && b == job.Start() + job.LineBytes() - 1 then d & mask else d
  }

  /** The mask keeps as many pixels of a byte as the last byte of a row has. */
  ghost predicate KeepsPixels(job: Job, mask: bv8)
    requires job.Mono()
  {
    job.Masks() ==> forall q | 0 <= q < 8 :: BitOf(mask, q) == (q < job.area.width % 8)
  }

  method CopyRow(job: Job, line: array<bv8>, ptr: nat, i: int)
    requires job.Mono() && job.InArea(i) && RowAt(job, ptr, i)
    requires Reusable(job, line[..])
    modifies line
    ensures Copied(job, line[..], i)
    ensures forall b | 0 <= b < line.Length ::
      (b < job.Start() || b >= job.Start() + job.LineBytes()) ==> line[b] == 0
  {
    CopyData(job, line, ptr);
    var mask := MaskPadding(job, line, ptr);
    CopiedPixels(job, line[..], ptr, mask, i);
  }

  /** Where the row goes in the line, and how many bytes of it. */
  method PlaceRow(job: Job) returns (start: nat, lineBytes: nat)
    requires job.Mono()
    ensures start == job.Start() && lineBytes == job.LineBytes()
  {
    var area := job.area;
    RowPlace(job);
    start, lineBytes := 0, job.Stride();
    if area.x >= 0 {
      start := area.x / 8;
    } else {
      lineBytes := lineBytes - (0 - area.x) / 8;
    }
    lineBytes := Arith.Min(lineBytes, job.LineSize() - start);
  }

  method CopyData(job: Job, line: array<bv8>, ptr: nat)
    requires job.Mono() && ptr + job.LineBytes() <= |job.data| && Reusable(job, line[..])
    modifies line
    ensures forall b | 0 <= b < line.Length :: line[b] == CopiedByte(job, ptr, 0xFF, b)
  {
    var start, lineBytes := PlaceRow(job);
    RowPlace(job);
    CopyBytes(line, start, job.data[ptr..ptr + lineBytes]);
  }

  /** Clears the bits beyond the row in the last byte copied. */
  method MaskPadding(job: Job, line: array<bv8>, ptr: nat) returns (mask: bv8)
    requires job.Mono() && ptr + job.LineBytes() <= |job.data| && line.Length == job.LineSize()
    requires forall b | 0 <= b < line.Length :: line[b] == CopiedByte(job, ptr, 0xFF, b)
    modifies line
    ensures KeepsPixels(job, mask)
    ensures forall b | 0 <= b < line.Length :: line[b] == CopiedByte(job, ptr, mask, b)
  {
    var start, lineBytes := PlaceRow(job);
    RowPlace(job);
    mask := 0;
    if job.area.width % 8 != 0 && job.Stride() + 1 < job.Width() {
      mask := LowBits(job.area.width % 8);
      line[start + lineBytes - 1] := line[start + lineBytes - 1] & mask;
    }
  }

  method CopyBytes(line: array<bv8>, start: nat, bytes: seq<bv8>)
    requires start + |bytes| <= line.Length
    modifies line
    ensures forall b | 0 <= b < line.Length ::
      line[b] == if start <= b < start + |bytes| then bytes[b - start] else old(line[b])
  {
    for j := 0 to |bytes|
      invariant forall b | 0 <= b < line.Length ::
        line[b] == if start <= b < start + j then bytes[b - start] else old(line[b])
    {
      line[start + j] := bytes[j];
    }
  }

  lemma {:induction false} CopiedPixels(job: Job, line: Line, ptr: nat, mask: bv8, i: int)
    requires job.Mono() && job.InArea(i) && RowAt(job, ptr, i)
    requires |line| == job.LineSize() && KeepsPixels(job, mask)
    requires forall b | 0 <= b < |line| :: line[b] == CopiedByte(job, ptr, mask, b)
    ensures Copied(job, line, i)
  {
    forall p: nat | p + job.Shift() < job.Width() ensures BitCopied(job, line, i, p) {
      assert line[p / 8] == CopiedByte(job, ptr, mask, p / 8);
      CopiedPixel(job, line, ptr, mask, i, p);
    }
  }

  /** The pixels shown are the copied bits that are not masked. */
  lemma {:induction false} ShownWhere(job: Job, p: nat)
    requires job.Mono() && p + job.Shift() < job.Width()
    ensures job.Shown(p + job.Shift()) <==>
      job.Start() <= p / 8 < job.Start() + job.LineBytes()
      && !(job.Masks() && p / 8 == job.Start() + job.LineBytes() - 1 && p % 8 >= job.area.width % 8)
  {
    RowPlace(job);
  }

  /** What masking leaves of the bits of a row. */
  lemma {:induction false} CopiedBit(job: Job, ptr: nat, mask: bv8, p: nat)
    requires job.Mono() && ptr + job.LineBytes() <= |job.data| && KeepsPixels(job, mask)
    requires job.Start() <= p / 8 < job.Start() + job.LineBytes()
    ensures BitOf(CopiedByte(job, ptr, mask, p / 8), p % 8) ==
      (BitOf(job.data[ptr + (p / 8 - job.Start())], p % 8)
      && !(job.Masks() && p / 8 == job.Start() + job.LineBytes() - 1 && p % 8 >= job.area.width % 8))
  {
    BitOfAnd(job.data[ptr + (p / 8 - job.Start())], mask, p % 8);
  }

  lemma {:induction false} CopiedPixel(job: Job, line: Line, ptr: nat, mask: bv8, i: int, p: nat)
    requires job.Mono() && job.InArea(i) && RowAt(job, ptr, i) && p + job.Shift() < job.Width()
    requires |line| == job.LineSize() && KeepsPixels(job, mask)
    requires line[p / 8] == CopiedByte(job, ptr, mask, p / 8)
    ensures BitCopied(job, line, i, p)
  {
    ShownWhere(job, p);
    if job.Start() <= p / 8 < job.Start() + job.LineBytes() {
      CopiedBit(job, ptr, mask, p);
      if job.Shown(p + job.Shift()) {
        PixelInRow(job, ptr, i, p);
      }
    } else {
      BitOfZero(p % 8);
    }
  }

  lemma {:induction false} PixelInRow(job: Job, ptr: nat, i: int, p: nat)
    requires job.Mono() && job.InArea(i) && RowAt(job, ptr, i)
    requires p + job.Shift() < job.Width() && job.Shown(p + job.Shift())
    ensures var at := ptr + (p / 8 - job.Start());
      0 <= at < |job.data| && job.Set(i, p + job.Shift()) == BitOf(job.data[at], p % 8)
  {
    RowPlace(job);
    ShownWhere(job, p);
    BitAtIs(job.data, ptr + (p / 8 - job.Start()), p % 8);
  }

  /** A buffer holding each pixel `shift` places early, shifted from byte `start` on for `len` bytes,
      holds it in its place, if nothing is set around the shifted bytes. */
  lemma {:induction false} ShiftedPixel(before: Line, line: Line, start: nat, len: nat, shift: nat, pixels: seq<bool>,
                                        p: nat)
    requires 1 <= shift <= 7 && |line| == |before| && |pixels| == 8 * |line| + shift && p < 8 * |line|
    requires len > 0 && start + len <= |line|
    requires forall q: nat | q < 8 * |line| :: BitAt(before, q) == pixels[q + shift]
    requires forall q: nat | q < 8 * start + shift :: !pixels[q]
    requires start + len < |line| ==> forall b | start + len - 1 <= b < |line| :: before[b] == 0
    requires line[..start] == before[..start]
    requires line[start..start + len] == Shifted(before[start..start + len], 0, shift)
    requires line[start + len..] == before[start + len..]
    ensures BitAt(line, p) == pixels[p]
  {
    if p < 8 * start {
      assert line[p / 8] == line[..start][p / 8] == before[p / 8];
      assert BitAt(before, p) == pixels[p + shift];
    } else if p < 8 * (start + len) {
      ShiftedInside(before, line, start, len, shift, p - 8 * start);
      if p >= 8 * start + shift {
        assert BitAt(before, p - shift) == pixels[p];
      }
    } else {
      assert line[p / 8] == line[start + len..][p / 8 - (start + len)] == before[p / 8] == 0;
      assert before[(p - shift) / 8] == 0;
      BitOfZero(p % 8);
      BitOfZero((p - shift) % 8);
      assert BitAt(before, p - shift) == pixels[p];
    }
  }

  lemma {:induction false} ShiftedInside(before: Line, line: Line, start: nat, len: nat, shift: nat, q: nat)
    requires 1 <= shift <= 7 && |line| == |before| && start + len <= |line| && q < 8 * len
    requires line[start..start + len] == Shifted(before[start..start + len], 0, shift)
    ensures BitAt(line, 8 * start + q) == (q >= shift && BitAt(before, 8 * start + q - shift))
  {
    BitMoved(before[start..start + len], shift, q);
    BitInSlice(line, start, start + len, q);
    if q >= shift {
      BitInSlice(before, start, start + len, q - shift);
    }
  }

  /** Which of the first n pixels of display line `i` are set. */
  ghost function Pixels(job: Job, i: int, n: nat): seq<bool>
    requires job.Mono() && job.InArea(i)
  {
    seq(n, q requires 0 <= q < n => job.Set(i, q))
  }

  /** The pixels a copied line has, with those it loses at the right when it is shifted. */
  lemma {:induction false} CopiedEarly(job: Job, before: Line, i: int, pixels: seq<bool>)
    requires job.Mono() && job.InArea(i) && Copied(job, before, i)
    requires |pixels| == job.Width() + job.Shift() && pixels[..job.Width()] == Pixels(job, i, job.Width())
    requires forall q: nat | job.Width() <= q < |pixels| :: pixels[q] == BitAt(before, q - job.Shift())
    ensures forall q: nat | q < job.Width() :: BitAt(before, q) == pixels[q + job.Shift()]
    ensures forall q: nat | q < 8 * job.Start() + job.Shift() :: !pixels[q]
  {
    RowPlace(job);
    forall q: nat | q < job.Width() ensures pixels[q] == job.Set(i, q) {
      assert pixels[q] == pixels[..job.Width()][q];
    }
    forall q: nat | q < job.Width() ensures BitAt(before, q) == pixels[q + job.Shift()] {
      if q + job.Shift() < job.Width() {
        assert BitCopied(job, before, i, q);
      }
    }
  }

  lemma {:induction false} CopiedShifted(job: Job, before: Line, line: Line, len: nat, i: int, p: nat)
    requires job.Mono() && job.InArea(i) && job.Shift() != 0 && Copied(job, before, i)
    requires |line| == |before| && p < job.Width()
    requires len == Arith.Min(job.LineBytes() + 1, |line| - job.Start())
    requires forall b | job.Start() + job.LineBytes() <= b < |before| :: before[b] == 0
    requires line[..job.Start()] == before[..job.Start()]
    requires line[job.Start()..job.Start() + len] == Shifted(before[job.Start()..job.Start() + len], 0, job.Shift())
    requires line[job.Start() + len..] == before[job.Start() + len..]
    ensures BitAt(line, p) == job.Set(i, p)
  {
    RowPlace(job);
    var shift, width := job.Shift(), job.Width();
    var lost := seq(shift, q requires 0 <= q < shift => BitAt(before, width + q - shift));
    var pixels := Pixels(job, i, width) + lost;
    CopiedEarly(job, before, i, pixels);
    ShiftedPixel(before, line, job.Start(), len, shift, pixels, p);
  }

  /** The line buffer shows exactly the set pixels of display line `i`. */
  ghost predicate Shows(job: Job, line: Line, i: int)
    requires job.Mono() && job.InArea(i)
  {
    |line| == job.LineSize() && forall p: nat | p < job.Width() :: BitAt(line, p) == job.Set(i, p)
  }

  lemma {:induction false} SetInWholeRow(job: Job, ptr: nat, i: int, p: nat)
    requires job.Mono() && job.InArea(i) && job.area.x == 0 && job.area.width == job.Width() && p < job.Width()
    requires RowAt(job, ptr, i)
    ensures 8 * ptr + p < 8 * |job.data| && job.Set(i, p) == BitAt(job.data, 8 * ptr + p)
  {
  }

  lemma {:induction false} WholeRow(job: Job, ptr: nat, i: int)
    requires job.Mono() && job.InArea(i) && job.area.x == 0 && job.area.width == job.Width()
    requires RowAt(job, ptr, i)
    ensures job.LineBytes() == job.LineSize()
    ensures Shows(job, job.data[ptr..ptr + job.LineSize()], i)
  {
    var line := job.data[ptr..ptr + job.LineSize()];
    forall p: nat | p < job.Width() ensures BitAt(line, p) == job.Set(i, p) {
      SetInWholeRow(job, ptr, i, p);
      BitInSlice(job.data, ptr, ptr + job.LineSize(), p);
    }
  }

  /** Shift the copied row to its bit position, and clear the buffer afterwards. */
  method ShiftRow(job: Job, line: array<bv8>, i: int) returns (shown: Line)
    requires job.Mono() && job.InArea(i) && job.Shift() != 0 && Copied(job, line[..], i)
    requires forall b | job.Start() + job.LineBytes() <= b < line.Length :: line[b] == 0
    modifies line
    ensures Shows(job, shown, i)
    ensures forall b | 0 <= b < line.Length :: line[b] == 0
  {
    ghost var before := line[..];
    var start, lineBytes := PlaceRow(job);
    RowPlace(job);
    var len := Arith.Min(lineBytes + 1, job.LineSize() - start);
    BitShiftRight(line, start, len, job.area.x % 8);
    shown := line[..];
    forall p: nat | p < job.Width() ensures BitAt(shown, p) == job.Set(i, p) {
      CopiedShifted(job, before, shown, len, i, p);
    }
    for b := 0 to line.Length
      invariant forall c | 0 <= c < b :: line[c] == 0
    {
      line[b] := 0;
    }
  }

  /** Assemble one drawn line. The buffer ends up fit for the next row. */
  method ProvideLine(job: Job, line: array<bv8>, ptr: nat, i: int) returns (shown: Line)
    requires job.Mono() && job.InArea(i) && RowAt(job, ptr, i)
    requires Reusable(job, line[..])
    modifies line
    ensures Shows(job, shown, i)
    ensures Reusable(job, line[..])
  {
    var area := job.area;
    if area.width == job.Width() && area.x == 0 {
      WholeRow(job, ptr, i);
      shown := job.data[ptr..ptr + job.LineSize()];
    } else {
      CopyRow(job, line, ptr, i);
      if area.x % 8 != 0 && area.x < job.Width() {
        shown := ShiftRow(job, line, i);
      } else {
        shown := line[..];
        forall p: nat | p < job.Width() ensures BitAt(shown, p) == job.Set(i, p) {
          assert BitCopied(job, shown, i, p);
        }
      }
    }
  }
}
