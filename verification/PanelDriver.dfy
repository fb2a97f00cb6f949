/** The driver routines that put out whole frames row by row, on two line buffers updated in place. */
module PanelDriver {
  import opened Bits
  import opened DrawJob
  import opened RowFormat
  import opened Panel
  import Lut
  import LineAssembly
  import OneBit

  /** What the rows of a frame of a 4 bit draw are: converted lines for the drawn display lines, else skips. */
  function FeedOp(job: Job, lut: Lut.Table, i: int): RowOp
    requires job.Gray() && |lut| == Lut.TABLE_SIZE
  {
    if job.Drawn(i) then Write(Input4bpp(job.LineOf(i), lut)) else Skip
  }

  function FeedOps(job: Job, lut: Lut.Table, count: nat): (ops: seq<RowOp>)
    requires job.Gray() && |lut| == Lut.TABLE_SIZE
    ensures |ops| == count
  {
    seq(count, i requires 0 <= i < count => FeedOp(job, lut, i))
  }

  /** A row that sets the mode's action for exactly the set pixels of display line `i`. */
  ghost predicate RowShows(job: Job, row: Row, i: int)
    requires job.Mono() && job.InArea(i)
  {
    |row| == 4 * job.groups &&
    forall p: nat | p < job.Width() :: PanelField(row, p) == if job.Set(i, p) then Lut.Action(job.mode) else 0
  }

  /** Operation `op` is right for display line `i` of a 1 bit draw. */
  ghost predicate MonoOp(job: Job, op: RowOp, i: int)
    requires job.Mono()
  {
    if job.Drawn(i) then op.Write? && (job.mode != Lut.UnknownMode ==> RowShows(job, op.row, i)) else op.Skip?
  }

  ghost predicate MonoOps(job: Job, ops: seq<RowOp>)
    requires job.Mono()
  {
    forall j | 0 <= j < |ops| :: MonoOp(job, ops[j], j)
  }

  /** The row of a push: the colour's action for the pixels of the area, nothing beside it. */
  ghost predicate PushRow(area: Rect, lighten: bool, row: Row)
    requires |row| % 4 == 0
  {
    forall p: nat | p < 4 * |row| ::
      PanelField(row, p) == if area.x <= p < area.x + area.width then (if lighten then 2 else 1) else 0
  }

  method Clear(buf: array<bv8>)
    modifies buf
    ensures buf[..] == ZeroRow(buf.Length)
  {
    for b := 0 to buf.Length
      invariant forall c | 0 <= c < b :: buf[c] == 0
    {
      buf[b] := 0;
    }
  }

  method Copy(buf: array<bv8>, row: Row)
    requires buf.Length == |row|
    modifies buf
    ensures buf[..] == row
  {
    for b := 0 to buf.Length
      invariant buf[..b] == row[..b]
    {
      buf[b] := row[b];
    }
  }

  lemma {:induction false} NextFeedOp(s: State, job: Job, lut: Lut.Table, i: nat)
    requires job.Gray() && |lut| == Lut.TABLE_SIZE
    ensures AllDone(s, FeedOps(job, lut, i + 1)) == Done(AllDone(s, FeedOps(job, lut, i)), FeedOp(job, lut, i))
  {
    assert FeedOps(job, lut, i + 1)[..i] == FeedOps(job, lut, i);
  }

  lemma {:induction false} AppendOp(s: State, ops: seq<RowOp>, op: RowOp)
    ensures AllDone(s, ops + [op]) == Done(AllDone(s, ops), op)
  {
    assert (ops + [op])[..|ops|] == ops;
  }

  class Driver {
    const size: nat
    const bufA: array<bv8>
    const bufB: array<bv8>
    var current: bool
    var skipping: nat
    // The panel: what its shift register and latches hold, and what each gate pulse of the frame applied.
    var shift: Row
    var latch: Row
    var driven: seq<Row>

    ghost predicate Valid()
      reads this, bufA, bufB
    {
      && bufA != bufB && bufA.Length == size && bufB.Length == size && size % 4 == 0
      && View().Sound(size)
    }

    ghost function View(): State
      reads this, bufA, bufB
    {
      State(skipping, bufA[..], bufB[..], current, shift, latch, driven)
    }

    /** Whatever the panel holds, the driver starts sound because nothing counts as skipped. */
    constructor (groups: nat, shift: Row, latch: Row)
      requires |shift| == 4 * groups && |latch| == 4 * groups
      ensures Valid() && size == 4 * groups && skipping == 0 && fresh(bufA) && fresh(bufB)
    {
      size := 4 * groups;
      bufA := new bv8[4 * groups];
      bufB := new bv8[4 * groups];
      current, skipping := false, 0;
      this.shift, this.latch, driven := shift, latch, [];
    }

    function CurrentBuffer(): array<bv8>
      reads this
    {
      if current then bufA else bufB
    }

    method StartFrame()
      requires Valid()
      modifies this`driven
      ensures Valid() && View() == old(View()).StartedFrame()
    {
      driven := [];
    }

    /** Hands out the buffer that was not handed out, with what it holds; what the frame has shown so far and
        the row that is loaded stay as they are. */
    method SwitchBuffer()
      requires Valid()
      modifies this`current
      ensures Valid()
      ensures CurrentBuffer() != old(CurrentBuffer()) && {CurrentBuffer(), old(CurrentBuffer())} == {bufA, bufB}
      ensures bufA[..] == old(bufA[..]) && bufB[..] == old(bufB[..])
      ensures forall meant :: old(View()).InFrame(size, meant) ==> View().InFrame(size, meant)
    {
      current := !current;
    }

    method OutputRow()
      requires bufA != bufB
      modifies this`latch, this`driven, this`shift, this`current
      ensures View() == old(View()).RowOutput()
    {
      latch := shift;
      driven := driven + [latch];
      shift := CurrentBuffer()[..];
      current := !current;
    }

    method WriteRow()
      requires Valid()
      modifies this`skipping, this`latch, this`driven, this`shift, this`current
      ensures Valid() && View() == old(View()).RowWritten()
    {
      skipping := 0;
      OutputRow();
    }

    method SkipRow()
      requires Valid()
      modifies this`skipping, this`latch, this`driven, this`shift, this`current, bufA, bufB
      ensures Valid() && View() == old(View()).RowSkipped()
    {
      if skipping < 2 {
        Clear(CurrentBuffer());
        OutputRow();
      } else {
        driven := driven + [latch];
      }
      skipping := (skipping + 1) % WRAP;
    }

    /** Put a given row into the current buffer. */
    method Load(row: Row)
      requires Valid() && |row| == size
      modifies bufA, bufB
      ensures Valid() && View() == old(View()).WithBack(row)
    {
      Copy(CurrentBuffer(), row);
    }

    /** Convert one line into the current buffer and write the row. */
    method FeedRow(line: Line, lut: array<bv8>)
      requires Valid() && |line| == 2 * size && |line| % 8 == 0
      requires lut.Length == Lut.TABLE_SIZE && lut != bufA && lut != bufB
      modifies this`skipping, this`latch, this`driven, this`shift, this`current, bufA, bufB
      ensures Valid() && View() == Done(old(View()), Write(Input4bpp(line, lut[..])))
      ensures lut[..] == old(lut[..])
    {
      CalcInput4bpp(line, CurrentBuffer(), lut);
      WriteRow();
    }

    /** What the feeder does for display line `i`: skip it, or take the next queued line and write it. */
    method FeedLine(job: Job, i: nat, queued: seq<Line>, next: nat, lut: array<bv8>) returns (after: nat)
      requires Valid() && job.Gray() && size == 4 * job.groups && i < job.screenHeight
      requires lut.Length == Lut.TABLE_SIZE && lut != bufA && lut != bufB
      requires next <= |queued| && queued[next..] == job.Lines(i, job.screenHeight)
      modifies this`skipping, this`latch, this`driven, this`shift, this`current, bufA, bufB
      ensures Valid() && View() == Done(old(View()), FeedOp(job, lut[..], i))
      ensures lut[..] == old(lut[..])
      ensures after <= |queued| && queued[after..] == job.Lines(i + 1, job.screenHeight)
    {
      after := next;
      if i < job.area.y || i >= job.area.y + job.area.height {
        SkipRow();
        return;
      }
      if job.drawnLines.Some? && !job.drawnLines.value[i - job.area.y] {
        SkipRow();
        return;
      }
      assert queued[next..][0] == job.LineOf(i);
      FeedRow(queued[next], lut);
      after := next + 1;
      assert queued[after..] == queued[next..][1..];
    }

    /** One frame of a 4 bit draw, fed with the queued lines in order. */
    method FeedFrame(job: Job, queued: seq<Line>, lut: array<bv8>)
      requires Valid() && job.Gray() && size == 4 * job.groups
      requires lut.Length == Lut.TABLE_SIZE && lut != bufA && lut != bufB
      requires queued == job.Lines(0, job.screenHeight)
      modifies this, bufA, bufB
      ensures Valid()
      ensures View() == FrameDone(old(View()), FeedOps(job, lut[..], job.screenHeight))
    {
      ghost var start, table := View(), lut[..];
      StartFrame();
      var next: nat := 0;
      for i := 0 to job.screenHeight
        invariant Valid() && lut[..] == table
        invariant next <= |queued| && queued[next..] == job.Lines(i, job.screenHeight)
        invariant View() == AllDone(start.StartedFrame(), FeedOps(job, table, i))
      {
        NextFeedOp(start.StartedFrame(), job, table, i);
        next := FeedLine(job, i, queued, next, lut);
      }
      if skipping == 0 {
        WriteRow();
      }
    }

    /** Assemble, convert and write one drawn line. */
    method DrawMonoRow(job: Job, line: array<bv8>, ptr: nat, i: int) returns (ghost row: Row)
      requires Valid() && job.Mono() && job.InArea(i) && size == 4 * job.groups && OneBit.RowAt(job, ptr, i)
      requires line != bufA && line != bufB && OneBit.Reusable(job, line[..])
      modifies this`skipping, this`latch, this`driven, this`shift, this`current, bufA, bufB, line
      ensures Valid() && OneBit.Reusable(job, line[..]) && |row| == size
      ensures job.mode != Lut.UnknownMode ==> RowShows(job, row, i)
      ensures View() == Done(old(View()), Write(row))
    {
      var shown := OneBit.ProvideLine(job, line, ptr, i);
      OneBit.CalcInput1bpp(shown, CurrentBuffer(), job.mode);
      row := CurrentBuffer()[..];
      if job.mode != Lut.UnknownMode {
        ShownRow(job, shown, i);
      }
      WriteRow();
    }

    /** What a 1 bit draw does for display line `i`. */
    method DrawMonoLine(job: Job, line: array<bv8>, ptr: nat, i: nat) returns (after: nat, ghost op: RowOp)
      requires Valid() && job.Mono() && size == 4 * job.groups
      requires ptr == LineAssembly.RowStart(job, i)
      requires line != bufA && line != bufB && OneBit.Reusable(job, line[..])
      modifies this`skipping, this`latch, this`driven, this`shift, this`current, bufA, bufB, line
      ensures Valid() && OneBit.Reusable(job, line[..])
      ensures MonoOp(job, op, i) && View() == Done(old(View()), op)
      ensures after == LineAssembly.RowStart(job, i + 1)
    {
      LineAssembly.NextRowStart(job, i);
      after, op := ptr, Skip;
      if i < job.area.y || i >= job.area.y + job.area.height {
        SkipRow();
        return;
      }
      after := ptr + job.Stride();
      if job.drawnLines.Some? && !job.drawnLines.value[i - job.area.y] {
        SkipRow();
        return;
      }
      OneBit.RowPlace(job);
      ghost var row := DrawMonoRow(job, line, ptr, i);
      op := Write(row);
    }

    /** One turn of the loop over the display lines, with the operations done since the start of the frame. */
    method DrawNextMonoLine(job: Job, line: array<bv8>, ptr: nat, i: nat, ghost ops: seq<RowOp>, ghost start: State)
      returns (after: nat, ghost more: seq<RowOp>)
      requires Valid() && job.Mono() && size == 4 * job.groups && |ops| == i && MonoOps(job, ops)
      requires View() == AllDone(start, ops) && ptr == LineAssembly.RowStart(job, i)
      requires line != bufA && line != bufB && OneBit.Reusable(job, line[..])
      modifies this`skipping, this`latch, this`driven, this`shift, this`current, bufA, bufB, line
      ensures Valid() && OneBit.Reusable(job, line[..])
      ensures |more| == i + 1 && MonoOps(job, more) && View() == AllDone(start, more)
      ensures after == LineAssembly.RowStart(job, i + 1)
    {
      ghost var op;
      after, op := DrawMonoLine(job, line, ptr, i);
      AppendOp(start, ops, op);
      more := ops + [op];
    }

    /** One frame of a 1 bit draw. */
    method DrawFrame1Bit(job: Job) returns (ghost ops: seq<RowOp>)
      requires Valid() && job.Mono() && size == 4 * job.groups
      modifies this, bufA, bufB
      ensures Valid()
      ensures |ops| == job.screenHeight && forall i | 0 <= i < |ops| :: MonoOp(job, ops[i], i)
      ensures View() == FrameDone(old(View()), ops)
    {
      ghost var start := View();
      ops := [];
      StartFrame();
      var line := new bv8[job.LineSize()];
      Clear(line);
      var ptr := LineAssembly.FirstRow(job);
      for i := 0 to job.screenHeight
        invariant Valid() && View() == AllDone(start.StartedFrame(), ops)
        invariant |ops| == i && MonoOps(job, ops)
        invariant OneBit.Reusable(job, line[..])
        invariant ptr == LineAssembly.RowStart(job, i)
      {
        ptr, ops := DrawNextMonoLine(job, line, ptr, i, ops, start.StartedFrame());
      }
      if skipping == 0 {
        WriteRow();
      }
    }

    /** Put a given row into both buffers. */
    method LoadBoth(row: Row, ghost meant: seq<Row>)
      requires Valid() && |row| == size && View().InFrame(size, meant)
      modifies this`current, bufA, bufB
      ensures Valid() && View().InFrame(size, meant) && bufA[..] == row && bufB[..] == row
    {
      SwitchBuffer();
      Load(row);
      SwitchBuffer();
      Load(row);
    }

    /** Darken or lighten an area: every line of the area gets the push row, every other line nothing,
        the last one included through the extra write. */
    method PushPixels(area: Rect, lighten: bool, screenHeight: nat)
      requires Valid() && area.OnScreen(4 * size, screenHeight)
      modifies this, bufA, bufB
      ensures Valid() && |driven| == screenHeight + 1
      ensures forall i | 0 <= i < screenHeight ::
        var applied := View().Applied(i);
        if area.y <= i < area.y + area.height then |applied| == size && PushRow(area, lighten, applied)
        else applied == ZeroRow(size)
    {
      var row := MakePushRow(area, lighten, size);
      StartFrame();
      ghost var meant: seq<Row> := [];
      for i := 0 to screenHeight
        invariant Valid() && View().InFrame(size, meant) && |meant| == i
        invariant forall j | 0 <= j < i :: meant[j] == if area.y <= j < area.y + area.height then row else ZeroRow(size)
        invariant area.y < i <= area.y + area.height ==> bufA[..] == row && bufB[..] == row
      {
        if i < area.y {
          View().SkipKeeps(size, meant);
          SkipRow();
          meant := meant + [ZeroRow(size)];
        } else if i == area.y {
          LoadBoth(row, meant);
          View().WriteKeeps(size, meant);
          WriteRow();
          meant := meant + [row];
        } else if i >= area.y + area.height {
          View().SkipKeeps(size, meant);
          SkipRow();
          meant := meant + [ZeroRow(size)];
        } else {
          View().WriteKeeps(size, meant);
          WriteRow();
          meant := meant + [row];
        }
      }
      View().FlushShows(size, meant);
      WriteRow();
      assert forall i | 0 <= i < screenHeight :: View().Applied(i) == meant[i];
    }
  }

  lemma {:induction false} ShownRow(job: Job, line: Line, i: int)
    requires job.Mono() && job.InArea(i) && job.mode != Lut.UnknownMode && OneBit.Shows(job, line, i)
    ensures RowShows(job, OneBit.Input1bpp(line, OneBit.Table(OneBit.White(job.mode))), i)
  {
    var row := OneBit.Input1bpp(line, OneBit.Table(OneBit.White(job.mode)));
    forall p: nat | p < job.Width()
      ensures PanelField(row, p) == if job.Set(i, p) then Lut.Action(job.mode) else 0
    {
      OneBit.SpreadPixels(line, job.mode, p);
    }
  }

  /** Set one field of the colour byte in a row byte. */
  function WithField(b: bv8, colour: bv8, n: nat): bv8
    requires n < 4
  {
    match n
    case 0 => b | (colour & 0x03)
    case 1 => b | (colour & 0x0C)
    case 2 => b | (colour & 0x30)
    case 3 => b | (colour & 0xC0)
  }

  lemma {:induction false} FieldSet(b: bv8, colour: bv8, n: nat, m: nat)
    requires n < 4 && m < 4
    ensures Field(WithField(b, colour, n), m) == if m == n then Field(b, m) | Field(colour, m) else Field(b, m)
  {
    assert m == 0 || m == 1 || m == 2 || m == 3;
  }

  method MakePushRow(area: Rect, lighten: bool, size: nat) returns (row: Row)
    requires size % 4 == 0 && area.x >= 0 && area.width >= 1 && area.x + area.width <= 4 * size
    ensures |row| == size && PushRow(area, lighten, row)
    ensures forall p: nat | p < 4 * size ::
              PanelField(row, p) == if p < area.x || p >= area.x + area.width then 0 else if lighten then 2 else 1
  {
    var buf := new bv8[size];
    Clear(buf);
    var colour: bv8 := if lighten then 0xAA else 0x55;
    for i := 0 to area.width
      invariant forall p: nat | p < 4 * size ::
        Field(buf[p / 4], p % 4) == if area.x <= p < area.x + i then (if lighten then 2 else 1) else 0
    {
      var position := i + area.x % 4;
      var at := area.x / 4 + position / 4;
      ghost var before := buf[..];
      assert area.x + i == 4 * at + position % 4;
      buf[at] := WithField(buf[at], colour, position % 4);
      forall p: nat | p < 4 * size
        ensures Field(buf[p / 4], p % 4) == if area.x <= p < area.x + (i + 1) then (if lighten then 2 else 1) else 0
      {
        assert Field(before[p / 4], p % 4) == if area.x <= p < area.x + i then (if lighten then 2 else 1) else 0;
        FieldSet(before[at], colour, position % 4, p % 4);
        ColourFields(p % 4);
      }
    }
    ghost var plain := buf[..];
    ReorderLineBuffer(buf);
    row := buf[..];
    forall p: nat | p < 4 * |row|
      ensures PanelField(row, p) == if area.x <= p < area.x + area.width then (if lighten then 2 else 1) else 0
    {
      ReorderedPixels(plain, p);
    }
  }

  lemma {:induction false} ColourFields(n: nat)
    requires n < 4
    ensures Field(0xAA, n) == 2 && Field(0x55, n) == 1
  {
    assert n == 0 || n == 1 || n == 2 || n == 3;
  }
}
