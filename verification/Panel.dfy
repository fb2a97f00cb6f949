/** The one-row-delayed row pipeline of the panel, and the shortcut for skipped rows. */
module Panel {
  import opened RowFormat

  const WRAP := 0x1_0000_0000

  /** Driver and panel state between two rows. The row loaded into the shift register is latched by the
      next output step, and every gate pulse applies the latched row; `driven` logs what each pulse of
      the current frame applied. */
  datatype State = State(skipping: nat, bufA: Row, bufB: Row, current: bool, shift: Row, latch: Row, driven: seq<Row>)
  {
    /** The line buffer handed out to be filled. */
    function Back(): Row { if current then bufA else bufB }

    function WithBack(row: Row): State {
      if current then this.(bufA := row) else this.(bufB := row)
    }

    /** The row applied to display line `i` in the current frame. */
    function Applied(i: nat): Row
      requires i + 1 < |driven|
    {
      driven[i + 1]
    }

    function Switched(): State { this.(current := !current) }

    function StartedFrame(): State { this.(driven := []) }

    /** Latch the loaded row and pulse, then load the current buffer and hand out the other one. */
    function RowOutput(): State {
      this.(latch := shift, driven := driven + [shift], shift := Back(), current := !current)
    }

    /** Pulse without latching. */
    function Pulsed(): State { this.(driven := driven + [latch]) }

    function RowWritten(): State { this.(skipping := 0).RowOutput() }

    function RowSkipped(): State {
      var s := if skipping < 2 then WithBack(ZeroRow(|Back()|)).RowOutput() else Pulsed();
      s.(skipping := (skipping + 1) % WRAP)
    }

    /** What holds between rows over any run: all buffers have row size, once a row has been skipped a
        zero row is loaded, and once two have been skipped a zero row is latched as well. */
    ghost predicate Sound(size: nat) {
      && |bufA| == size && |bufB| == size && |shift| == size && |latch| == size
      && skipping < WRAP
      && (skipping >= 1 ==> shift == ZeroRow(size))
      && (skipping >= 2 ==> latch == ZeroRow(size))
    }

    /** In the current frame `meant` rows have been put out: all but the last have been applied, each one
        pulse after it was loaded, and the last one is loaded. */
    ghost predicate InFrame(size: nat, meant: seq<Row>) {
      && Sound(size)
      && |driven| == |meant|
      && (forall i | 0 <= i < |meant| - 1 :: Applied(i) == meant[i])
      && (meant != [] ==> shift == meant[|meant| - 1])
    }

    /** Every display line got its row, except perhaps a last one for which nothing was meant. */
    ghost predicate FrameShown(size: nat, meant: seq<Row>) {
      && Sound(size)
      && |meant| <= |driven| <= |meant| + 1
      && (forall i | 0 <= i < |driven| - 1 :: Applied(i) == meant[i])
      && (meant != [] && |driven| == |meant| ==> meant[|meant| - 1] == ZeroRow(size))
    }

    lemma {:induction false} WriteKeeps(size: nat, meant: seq<Row>)
      requires InFrame(size, meant)
      ensures RowWritten().InFrame(size, meant + [Back()])
    {
    }

    lemma {:induction false} SkipKeeps(size: nat, meant: seq<Row>)
      requires InFrame(size, meant)
      ensures RowSkipped().InFrame(size, meant + [ZeroRow(size)])
    {
    }

    /** The extra write at the end of a frame latches the last row. */
    lemma {:induction false} FlushShows(size: nat, meant: seq<Row>)
      requires InFrame(size, meant)
      ensures RowWritten().FrameShown(size, meant) && |RowWritten().driven| == |meant| + 1
    {
    }

    /** Without the extra write nothing is lost if a row was skipped last. */
    lemma {:induction false} NoFlushShows(size: nat, meant: seq<Row>)
      requires InFrame(size, meant) && skipping >= 1
      ensures FrameShown(size, meant)
    {
    }
  }

  // ----- Row operations as values -----

  datatype RowOp = Skip | Write(row: Row)

  function Meant(op: RowOp, size: nat): Row
  {
    if op.Skip? then ZeroRow(size) else op.row
  }

  function MeantRows(ops: seq<RowOp>, size: nat): (rows: seq<Row>)
    ensures |rows| == |ops|
  {
    seq(|ops|, i requires 0 <= i < |ops| => Meant(ops[i], size))
  }

  function Done(s: State, op: RowOp): State
  {
    match op
    case Skip => s.RowSkipped()
    case Write(row) => s.WithBack(row).RowWritten()
  }

  function AllDone(s: State, ops: seq<RowOp>): State
  {
    if ops == [] then s else Done(AllDone(s, ops[..|ops| - 1]), ops[|ops| - 1])
  }

  /** A whole frame: start, one operation per display line, and the extra write unless rows were skipped last. */
  function FrameDone(s: State, ops: seq<RowOp>): State
  {
    var e := AllDone(s.StartedFrame(), ops);
    if e.skipping == 0 then e.RowWritten() else e
  }

  predicate RowsHaveSize(ops: seq<RowOp>, size: nat)
  {
    forall i | 0 <= i < |ops| :: ops[i].Write? ==> |ops[i].row| == size
  }

  lemma {:induction false} OpsKeep(s: State, ops: seq<RowOp>, size: nat)
    requires s.Sound(size) && RowsHaveSize(ops, size)
    ensures AllDone(s.StartedFrame(), ops).InFrame(size, MeantRows(ops, size))
  {
    if ops == [] {
    } else {
      var most, last := ops[..|ops| - 1], ops[|ops| - 1];
      OpsKeep(s, most, size);
      var e, meant := AllDone(s.StartedFrame(), most), MeantRows(most, size);
      assert MeantRows(ops, size) == meant + [Meant(last, size)];
      match last {
        case Skip => e.SkipKeeps(size, meant);
        case Write(row) =>
          assert e.WithBack(row).InFrame(size, meant);
          e.WithBack(row).WriteKeeps(size, meant);
      }
    }
  }

  /** Every frame, from any sound state, applies to display line i exactly the row meant for it at pulse
      i + 1, zero rows for skipped lines, and leaves a sound state for the next frame. */
  lemma {:induction false} FrameShowsMeantRows(s: State, ops: seq<RowOp>, size: nat)
    requires s.Sound(size) && RowsHaveSize(ops, size)
    ensures FrameDone(s, ops).FrameShown(size, MeantRows(ops, size))
  {
    OpsKeep(s, ops, size);
    var e := AllDone(s.StartedFrame(), ops);
    if e.skipping == 0 {
      e.FlushShows(size, MeantRows(ops, size));
    } else {
      e.NoFlushShows(size, MeantRows(ops, size));
    }
  }

  /** The states after each of a sequence of frames. */
  function FramesDone(s: State, frames: seq<seq<RowOp>>): State
  {
    if frames == [] then s else FrameDone(FramesDone(s, frames[..|frames| - 1]), frames[|frames| - 1])
  }

  lemma {:induction false} NextFrame(s: State, frames: seq<seq<RowOp>>, k: nat)
    requires k < |frames|
    ensures FramesDone(s, frames[..k + 1]) == FrameDone(FramesDone(s, frames[..k]), frames[k])
  {
    assert frames[..k + 1][..k] == frames[..k];
  }

  /** The same over any sequence of frames: whatever was drawn before, frame k shows its own rows. */
  lemma {:induction false} EveryFrameShown(s: State, frames: seq<seq<RowOp>>, size: nat, k: nat)
    requires s.Sound(size) && k < |frames|
    requires forall f | 0 <= f < |frames| :: RowsHaveSize(frames[f], size)
    ensures FramesDone(s, frames[..k + 1]).FrameShown(size, MeantRows(frames[k], size))
  {
    if k > 0 {
      EveryFrameShown(s, frames, size, k - 1);
    }
    NextFrame(s, frames, k);
    FrameShowsMeantRows(FramesDone(s, frames[..k]), frames[k], size);
  }
}
