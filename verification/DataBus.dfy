/** The double-buffered data bus below the row pipeline, at the grain of single shared accesses: the driver
    with its two waiting loops, the DMA engine reading a line buffer byte by byte into a FIFO, the FIFO
    draining into the panel, and the "done" interrupt. It is shown to behave as the row pipeline's atomic
    operations in every interleaving. */
module DataBus {
  import opened RowFormat
  import Arith
  import Panel

  // Where the driver stands. `Ready` is outside the bus routines: it may fill the buffer it was handed.
  datatype Driver =
    | Ready
    | OutputChecksDone | OutputChecksFifo   // wait until the bus is not busy
    | Latches                               // latch the loaded row and pulse
    | ClearsDone | StartsDma                // start the line output
    | SwitchChecksDone | SwitchChecksFifo | SwitchChecksAddr // wait until the buffer may be switched
    | Flips

  datatype Dma = Idle | Reading(pos: nat) | Signals

  datatype State = State(
    driver: Driver, bufA: Row, bufB: Row, current: bool, outputDone: bool,
    // hardware: which buffer the DMA link points to, how far it has read, and the way to the panel
    outAddr: bool, dma: Dma, fifo: seq<bv8>, loaded: seq<bv8>, latch: Row, driven: seq<Row>,
    // the contents of the buffer when its transmission was started
    snapshot: Row)
  {
    function Buffer(which: bool): Row { if which then bufA else bufB }

    function Back(): Row { Buffer(current) }

    function WithBack(row: Row): State {
      if current then this.(bufA := row) else this.(bufB := row)
    }
  }

  // ----- Steps -----

  ghost predicate Init(size: nat, s: State)
  {
    && s.driver == Ready && s.outputDone && s.dma == Idle && s.fifo == []
    && |s.bufA| == size && |s.bufB| == size && |s.loaded| == size && |s.latch| == size
    && s.snapshot == s.loaded
  }

  /** The driver's own code between bus calls stores one byte at a time. */
  ghost predicate ByteStored(before: Row, after: Row)
  {
    |before| == |after| && exists b | 0 <= b < |before| :: after == before[b := after[b]]
  }

  ghost predicate DriverStep(s: State, t: State)
  {
    match s.driver
    case Ready =>
      || (ByteStored(s.Back(), t.Back()) && t == s.WithBack(t.Back()))
      || t == s.(driver := OutputChecksDone)
      || t == s.(driver := SwitchChecksDone)
      || t == s.(driven := s.driven + [s.latch])
    case OutputChecksDone =>
      t == s.(driver := if s.outputDone then OutputChecksFifo else OutputChecksDone)
    case OutputChecksFifo =>
      t == s.(driver := if s.fifo == [] then Latches else OutputChecksDone)
    case Latches =>
      t == s.(latch := s.loaded, driven := s.driven + [s.loaded], driver := ClearsDone)
    case ClearsDone =>
      t == s.(outputDone := false, driver := StartsDma)
    case StartsDma =>
      t == s.(outAddr := s.current, dma := Reading(0), fifo := [], loaded := [], snapshot := s.Back(),
              driver := SwitchChecksDone)
    case SwitchChecksDone =>
      t == s.(driver := if s.outputDone then SwitchChecksFifo else SwitchChecksAddr)
    case SwitchChecksFifo =>
      t == s.(driver := if s.fifo == [] then Flips else SwitchChecksAddr)
    case SwitchChecksAddr =>
      t == s.(driver := if s.current == s.outAddr then Flips else SwitchChecksDone)
    case Flips =>
      t == s.(current := !s.current, driver := Ready)
  }

  ghost predicate HardwareStep(s: State, t: State)
  {
    || (s.dma.Reading? && s.dma.pos < |s.Buffer(s.outAddr)|
        && t == s.(dma := Reading(s.dma.pos + 1), fifo := s.fifo + [s.Buffer(s.outAddr)[s.dma.pos]]))
    || (s.dma.Reading? && s.dma.pos == |s.Buffer(s.outAddr)| && t == s.(dma := Signals))
    || (s.fifo != [] && t == s.(loaded := s.loaded + [s.fifo[0]], fifo := s.fifo[1..]))
    || (s.dma.Signals? && t == s.(outputDone := true, dma := Idle))
  }

  ghost predicate Next(s: State, t: State)
  {
    DriverStep(s, t) || HardwareStep(s, t)
  }

  // ----- Invariant -----

  ghost predicate Inv(size: nat, s: State)
  {
    && |s.bufA| == size && |s.bufB| == size && |s.latch| == size && |s.snapshot| == size
    && (s.outputDone ==> s.dma == Idle)
    && (s.dma.Reading? ==>
          && s.dma.pos <= size && s.Buffer(s.outAddr) == s.snapshot
          && s.loaded + s.fifo == s.snapshot[..s.dma.pos])
    && (!s.dma.Reading? && s.driver != StartsDma ==> s.loaded + s.fifo == s.snapshot)
    && (s.driver == StartsDma ==> s.dma == Idle && !s.outputDone)
    && (!s.outputDone && s.driver != StartsDma ==> s.dma != Idle)
    // the driver fills the current buffer only if the DMA is not reading it
    && (s.driver in {Ready, OutputChecksDone, OutputChecksFifo} && s.dma.Reading? ==> s.current != s.outAddr)
    // past the waiting loops the bus is quiet
    && (s.driver in {OutputChecksFifo, SwitchChecksFifo, Latches, ClearsDone} ==> s.outputDone)
    && (s.driver in {Latches, ClearsDone} ==> s.fifo == [])
    && (s.driver == Flips && s.dma.Reading? ==> s.current == s.outAddr)
  }

  lemma {:induction false} InitInv(size: nat, s: State)
    requires Init(size, s)
    ensures Inv(size, s)
  {
  }

  lemma {:induction false} DriverKeeps(size: nat, s: State, t: State)
    requires Inv(size, s) && DriverStep(s, t)
    ensures Inv(size, t)
  {
  }

  lemma {:induction false} ByteRead(size: nat, s: State, t: State)
    requires Inv(size, s) && s.dma.Reading? && s.dma.pos < size
    requires t == s.(dma := Reading(s.dma.pos + 1), fifo := s.fifo + [s.Buffer(s.outAddr)[s.dma.pos]])
    ensures Inv(size, t)
  {
    var next := s.snapshot[s.dma.pos];
    Arith.Associate(s.loaded, s.fifo, [next]);
    assert s.snapshot[..s.dma.pos] + [next] == s.snapshot[..s.dma.pos + 1];
  }

  lemma {:induction false} BufferRead(size: nat, s: State, t: State)
    requires Inv(size, s) && s.dma.Reading? && s.dma.pos == size && t == s.(dma := Signals)
    ensures Inv(size, t)
  {
    assert s.snapshot[..s.dma.pos] == s.snapshot;
  }

  lemma {:induction false} ByteShifted(size: nat, s: State, t: State)
    requires Inv(size, s) && s.fifo != [] && t == s.(loaded := s.loaded + [s.fifo[0]], fifo := s.fifo[1..])
    ensures Inv(size, t)
  {
    Arith.Associate(s.loaded, [s.fifo[0]], s.fifo[1..]);
    assert [s.fifo[0]] + s.fifo[1..] == s.fifo;
  }

  lemma {:induction false} HardwareKeeps(size: nat, s: State, t: State)
    requires Inv(size, s) && HardwareStep(s, t)
    ensures Inv(size, t)
  {
    if s.dma.Reading? && s.dma.pos < size && t.dma == Reading(s.dma.pos + 1) {
      ByteRead(size, s, t);
    } else if s.dma.Reading? && s.dma.pos == size && t.dma == Signals {
      BufferRead(size, s, t);
    } else if s.fifo != [] && t.fifo == s.fifo[1..] {
      ByteShifted(size, s, t);
    }
  }

  // ----- Whole runs -----

  ghost predicate StepAt(run: seq<State>, i: nat)
    requires i + 1 < |run|
  {
    Next(run[i], run[i + 1])
  }

  ghost predicate Run(size: nat, run: seq<State>)
  {
    && run != [] && Init(size, run[0])
    && forall i | 0 <= i < |run| - 1 :: StepAt(run, i)
  }

  lemma {:induction false} RunKeepsInvariant(size: nat, run: seq<State>, i: nat)
    requires Run(size, run) && i < |run|
    ensures Inv(size, run[i])
  {
    if i == 0 {
      InitInv(size, run[0]);
    } else {
      RunKeepsInvariant(size, run, i - 1);
      assert StepAt(run, i - 1);
      if DriverStep(run[i - 1], run[i]) {
        DriverKeeps(size, run[i - 1], run[i]);
      } else {
        HardwareKeeps(size, run[i - 1], run[i]);
      }
    }
  }

  /** In every interleaving with the DMA and its interrupt, the buffer the driver may fill is never the one
      being transmitted, and what is latched is the complete row as it stood when its output was started. */
  lemma {:induction false} BuffersNeverCollide(size: nat, run: seq<State>, i: nat)
    requires Run(size, run) && i < |run|
    ensures run[i].driver == Ready && run[i].dma.Reading? ==> run[i].current != run[i].outAddr
    ensures run[i].driver == Latches ==> run[i].loaded == run[i].snapshot
  {
    RunKeepsInvariant(size, run, i);
    if run[i].driver == Latches {
      assert run[i].loaded + [] == run[i].loaded;
    }
  }

  // ----- Refinement of the row pipeline -----

  /** The pipeline state a bus state stands for. A switch under way counts as done, and an output counts as
      done from the moment the previous row is latched. */
  ghost function Abstract(s: State): Panel.State
  {
    var starting := s.driver in {ClearsDone, StartsDma};
    var switching := s.driver in {ClearsDone, StartsDma, SwitchChecksDone, SwitchChecksFifo, SwitchChecksAddr, Flips};
    Panel.State(0, s.bufA, s.bufB, if switching then !s.current else s.current,
                if starting then s.Back() else s.snapshot, s.latch, s.driven)
  }

  /** What the row pipeline does in one step, or nothing. */
  ghost predicate PipelineStep(a: Panel.State, b: Panel.State)
  {
    || b == a
    || b == a.Switched()
    || b == a.RowOutput()
    || b == a.Pulsed()
    || exists row: Row :: |row| == |a.Back()| && b == a.WithBack(row)
  }

  lemma {:induction false} HardwareIsInvisible(s: State, t: State)
    requires HardwareStep(s, t)
    ensures Abstract(t) == Abstract(s)
  {
  }

  lemma {:induction false} LatchingOutputs(size: nat, s: State, t: State)
    requires Inv(size, s) && s.driver == Latches && DriverStep(s, t)
    ensures Abstract(t) == Abstract(s).RowOutput()
  {
    assert s.loaded + [] == s.loaded;
  }

  lemma {:induction false} ReadyRefines(size: nat, s: State, t: State)
    requires Inv(size, s) && s.driver == Ready && DriverStep(s, t)
    ensures PipelineStep(Abstract(s), Abstract(t))
  {
    if t == s.(driver := OutputChecksDone) {
      assert Abstract(t) == Abstract(s);
    } else if t == s.(driver := SwitchChecksDone) {
      assert Abstract(t) == Abstract(s).Switched();
    } else if t == s.(driven := s.driven + [s.latch]) {
      assert Abstract(t) == Abstract(s).Pulsed();
    } else {
      assert Abstract(t) == Abstract(s).WithBack(t.Back());
    }
  }

  lemma {:induction false} WaitingIsInvisible(s: State, t: State)
    requires s.driver != Ready && s.driver != Latches && DriverStep(s, t)
    ensures Abstract(t) == Abstract(s)
  {
  }

  /** Every step of the bus is a step of the row pipeline or invisible to it: latching takes exactly the row
      loaded before, and the row loaded next is the buffer's contents at that moment. */
  lemma {:induction false} BusRefinesPipeline(size: nat, s: State, t: State)
    requires Inv(size, s) && Next(s, t)
    ensures PipelineStep(Abstract(s), Abstract(t))
  {
    if HardwareStep(s, t) {
      HardwareIsInvisible(s, t);
    } else if s.driver == Latches {
      LatchingOutputs(size, s, t);
    } else if s.driver == Ready {
      ReadyRefines(size, s, t);
    } else {
      WaitingIsInvisible(s, t);
    }
  }

  // ----- The waiting loops end -----

  predicate Busy(s: State)
  {
    !s.outputDone || s.fifo != []
  }

  /** Hardware steps left until the bus is quiet. */
  function HardwareWork(s: State): int
  {
    |s.fifo| + (match s.dma
                case Idle => 0
                case Signals => 1
                case Reading(pos) => 2 * (|s.Buffer(s.outAddr)| - pos) + 2)
  }

  /** While the driver waits, the hardware can move, and every hardware step brings the bus nearer to quiet. */
  lemma {:induction false} WaitingEnds(size: nat, s: State) returns (t: State)
    requires Inv(size, s) && Busy(s) && s.driver != StartsDma
    ensures HardwareStep(s, t)
  {
    if s.fifo != [] {
      t := s.(loaded := s.loaded + [s.fifo[0]], fifo := s.fifo[1..]);
    } else if s.dma.Signals? {
      t := s.(outputDone := true, dma := Idle);
    } else if s.dma.pos == |s.Buffer(s.outAddr)| {
      t := s.(dma := Signals);
    } else {
      t := s.(dma := Reading(s.dma.pos + 1), fifo := s.fifo + [s.Buffer(s.outAddr)[s.dma.pos]]);
    }
  }

  lemma {:induction false} HardwareWorks(size: nat, s: State, t: State)
    requires Inv(size, s) && HardwareStep(s, t)
    ensures 0 <= HardwareWork(t) < HardwareWork(s)
  {
    HardwareKeeps(size, s, t);
  }

  /** No hardware work is left exactly if the bus is quiet. */
  lemma {:induction false} QuietWhenDone(size: nat, s: State)
    requires Inv(size, s) && s.driver != StartsDma
    ensures HardwareWork(s) == 0 <==> !Busy(s)
  {
  }

  predicate Waiting(s: State)
  {
    s.driver in {OutputChecksDone, OutputChecksFifo, SwitchChecksDone, SwitchChecksFifo, SwitchChecksAddr}
  }

  /** How many own steps a waiting driver still makes on a quiet bus. */
  function WaitSteps(s: State): nat
  {
    match s.driver
    case OutputChecksDone | SwitchChecksDone => 2
    case OutputChecksFifo | SwitchChecksFifo => 1
    case SwitchChecksAddr => 3
    case _ => 0
  }

  /** On a quiet bus every own step of a waiting driver brings it nearer to the end of its loop; the bus stays quiet. */
  lemma {:induction false} QuietBusLetsThrough(s: State, t: State)
    requires !Busy(s) && Waiting(s) && DriverStep(s, t)
    ensures !Busy(t) && WaitSteps(t) < WaitSteps(s)
    ensures t.driver == Latches || t.driver == Flips || Waiting(t)
  {
  }

  /** From the head of its loop the driver is through after two steps. */
  lemma {:induction false} TwoStepsEndWaiting(s: State, t: State, u: State)
    requires !Busy(s) && (s.driver == OutputChecksDone || s.driver == SwitchChecksDone)
    requires DriverStep(s, t) && DriverStep(t, u)
    ensures u.driver == if s.driver == OutputChecksDone then Latches else Flips
  {
    QuietBusLetsThrough(s, t);
    QuietBusLetsThrough(t, u);
  }

  /** While the driver only waits, no step of either side raises the hardware work. */
  lemma {:induction false} WaitingAddsNoWork(size: nat, s: State, t: State)
    requires Inv(size, s) && Waiting(s) && Next(s, t)
    ensures HardwareWork(t) <= HardwareWork(s)
    ensures HardwareStep(s, t) ==> HardwareWork(t) < HardwareWork(s)
  {
    if HardwareStep(s, t) {
      HardwareWorks(size, s, t);
    }
  }

  // ----- The pipeline's operations can be made -----

  ghost predicate Steps(run: seq<State>)
  {
    run != [] && forall i | 0 <= i < |run| - 1 :: StepAt(run, i)
  }

  lemma {:induction false} OneMoreStep(run: seq<State>, t: State)
    requires Steps(run) && Next(run[|run| - 1], t)
    ensures Steps(run + [t])
  {
    var more := run + [t];
    forall i | 0 <= i < |more| - 1
      ensures StepAt(more, i)
    {
      if i < |run| - 1 {
        assert StepAt(run, i);
      }
    }
  }

  /** Whatever it was doing, the hardware can finish while the driver is ready, and the pipeline does not see it. */
  lemma {:induction false} BusBecomesQuiet(size: nat, s: State) returns (run: seq<State>)
    requires Inv(size, s) && s.driver == Ready
    ensures Steps(run) && run[0] == s
    ensures var t := run[|run| - 1]; Inv(size, t) && t.driver == Ready && !Busy(t) && Abstract(t) == Abstract(s)
    decreases HardwareWork(s)
  {
    run := [s];
    if Busy(s) {
      var t := WaitingEnds(size, s);
      HardwareWorks(size, s, t);
      HardwareKeeps(size, s, t);
      HardwareIsInvisible(s, t);
      var rest := BusBecomesQuiet(size, t);
      run := [s] + rest;
      StepBefore(s, rest);
    }
  }

  lemma {:induction false} StepBefore(s: State, rest: seq<State>)
    requires Steps(rest) && Next(s, rest[0])
    ensures Steps([s] + rest)
  {
    var run := [s] + rest;
    forall i | 0 <= i < |run| - 1
      ensures StepAt(run, i)
    {
      if i > 0 {
        assert StepAt(rest, i - 1);
      }
    }
  }

  /** On a quiet bus the driver latches the loaded row in four steps, */
  lemma {:induction false} LatchesInFour(s: State) returns (run: seq<State>)
    requires s.driver == Ready && !Busy(s)
    ensures Steps(run) && run[0] == s
    ensures run[|run| - 1] == s.(latch := s.loaded, driven := s.driven + [s.loaded], driver := ClearsDone)
  {
    var a, b, c := s.(driver := OutputChecksDone), s.(driver := OutputChecksFifo), s.(driver := Latches);
    run := [s];
    OneMoreStep(run, a);
    run := run + [a];
    OneMoreStep(run, b);
    run := run + [b];
    OneMoreStep(run, c);
    run := run + [c];
    var d := s.(latch := s.loaded, driven := s.driven + [s.loaded], driver := ClearsDone);
    OneMoreStep(run, d);
    run := run + [d];
  }

  /** and is ready again after five more, with the next row on its way and the other buffer handed out. */
  lemma {:induction false} RestartsInFive(s: State) returns (run: seq<State>)
    requires s.driver == ClearsDone
    ensures Steps(run) && run[0] == s
    ensures run[|run| - 1] == s.(outputDone := false, outAddr := s.current, dma := Reading(0), fifo := [], loaded := [],
                                 snapshot := s.Back(), current := !s.current, driver := Ready)
  {
    var a := s.(outputDone := false, driver := StartsDma);
    var b := a.(outAddr := s.current, dma := Reading(0), fifo := [], loaded := [], snapshot := s.Back(),
                driver := SwitchChecksDone);
    var c, d := b.(driver := SwitchChecksAddr), b.(driver := Flips);
    run := [s];
    OneMoreStep(run, a);
    run := run + [a];
    OneMoreStep(run, b);
    run := run + [b];
    OneMoreStep(run, c);
    run := run + [c];
    OneMoreStep(run, d);
    run := run + [d];
    OneMoreStep(run, d.(current := !s.current, driver := Ready));
    run := run + [d.(current := !s.current, driver := Ready)];
  }

  lemma {:induction false} StepsTogether(a: seq<State>, b: seq<State>)
    requires Steps(a) && Steps(b) && a[|a| - 1] == b[0]
    ensures Steps(a + b[1..])
  {
    var run := a + b[1..];
    forall i | 0 <= i < |run| - 1
      ensures StepAt(run, i)
    {
      if i < |a| - 1 {
        assert StepAt(a, i);
      } else {
        assert StepAt(b, i - (|a| - 1));
      }
    }
  }

  /** So the bus can make each operation of the pipeline: put out a row, */
  lemma {:induction false} RowCanBeOutput(size: nat, s: State) returns (run: seq<State>)
    requires Inv(size, s) && s.driver == Ready && !Busy(s)
    ensures Steps(run) && run[0] == s
    ensures run[|run| - 1].driver == Ready && Abstract(run[|run| - 1]) == Abstract(s).RowOutput()
  {
    var first := LatchesInFour(s);
    var second := RestartsInFive(first[|first| - 1]);
    StepsTogether(first, second);
    run := first + second[1..];
    assert s.loaded + [] == s.loaded;
  }

  /** pulse the gate with the latched row, switch the buffers, and store any byte in the one handed out. */
  lemma {:induction false} OthersCanBeMade(size: nat, s: State, b: nat, v: bv8)
    requires Inv(size, s) && s.driver == Ready && b < size
    ensures exists t :: Next(s, t) && t.driver == Ready && Abstract(t) == Abstract(s).Pulsed()
    ensures exists t :: Next(s, t) && Abstract(t) == Abstract(s).Switched()
    ensures exists t :: Next(s, t) && t.driver == Ready && Abstract(t) == Abstract(s).WithBack(s.Back()[b := v])
  {
    var pulse, switch := s.(driven := s.driven + [s.latch]), s.(driver := SwitchChecksDone);
    var row := s.Back()[b := v];
    var store := s.WithBack(row);
    assert row == s.Back()[b := row[b]];
    assert ByteStored(s.Back(), store.Back()) && store == s.WithBack(store.Back());
    assert Next(s, pulse) && Next(s, switch) && Next(s, store);
    assert Abstract(pulse) == Abstract(s).Pulsed();
    assert Abstract(switch) == Abstract(s).Switched();
    assert Abstract(store) == Abstract(s).WithBack(row);
  }
}
