/** The 15-frame grayscale draw as a system of three interleaved processes: the coordinator that runs the
    frames, the line provider that owns the conversion table, and the feeder that converts queued lines and
    puts them out. They share four binary semaphores, the two parameter blocks, a 32-slot queue and the table.
    One step is one access to shared state; the provider writes the table one byte at a time, loop by loop, and
    the feeder reads it one word of output at a time, so any overlap of the two would show. */
module FrameEngine {
  import opened DrawJob
  import opened RowFormat
  import opened Panel
  import opened TableStores
  import Lut
  import PanelDriver

  const FRAMES: nat := 15
  const QUEUE_SLOTS: nat := 32

  // Where the coordinator stands in its current frame.
  datatype Coordinator = SetFetch | SetFeed | StartFetch | StartFeed | AwaitFetch | AwaitFeed | Finished

  // Where the provider stands. While it writes the table it is about to make the store of this turn of a loop.
  datatype Provider =
    | ProviderWaits
    | WritesTable(loop: nat, turn: nat)
    | ProvidesRow(row: nat)
    | SendsLine(row: nat, line: Line)
    | ProviderGives

  // Where the feeder stands. A row under conversion has its first `words` 32-bit words stored in the buffer.
  datatype Feeder =
    | FeederWaits
    | FeedsRow(row: nat)
    | ReceivesLine(row: nat)
    | Converts(row: nat, line: Line, words: nat, stored: Row)
    | FeederGives

  datatype State = State(
    frame: nat, coordinator: Coordinator, provider: Provider, feeder: Feeder,
    fetchFrame: nat, feedFrame: nat,
    fetchStart: bool, fetchDone: bool, feedStart: bool, feedDone: bool,
    queue: seq<Line>, table: Lut.Table,
    ops: seq<RowOp>, frames: seq<seq<RowOp>>)

  /** Where the provider stands after the store of a turn. */
  function AfterStore(loop: nat, turn: nat): Provider
  {
    if turn + 1 < LoopLength(loop) then WritesTable(loop, turn + 1)
    else if loop + 1 < LOOPS then WritesTable(loop + 1, 0)
    else ProvidesRow(0)
  }

  // ----- Steps -----

  predicate Init(job: Job, s: State)
    requires job.Gray()
  {
    && s.frame == 0 && s.coordinator == SetFetch
    && Idle(s) && s.frames == []
  }

  /** Nobody has anything to do: the state in which a draw may be started, and in which it ends. */
  predicate Idle(s: State)
  {
    && s.provider == ProviderWaits && s.feeder == FeederWaits && s.queue == []
    && !s.fetchStart && !s.fetchDone && !s.feedStart && !s.feedDone
    && |s.table| == Lut.TABLE_SIZE
  }

  predicate CoordinatorStep(job: Job, s: State, t: State)
  {
    match s.coordinator
    case SetFetch => t == s.(fetchFrame := s.frame, coordinator := SetFeed)
    case SetFeed => t == s.(feedFrame := s.frame, coordinator := StartFetch)
    case StartFetch => t == s.(fetchStart := true, coordinator := StartFeed)
    case StartFeed => t == s.(feedStart := true, coordinator := AwaitFetch)
    case AwaitFetch => s.fetchDone && t == s.(fetchDone := false, coordinator := AwaitFeed)
    case AwaitFeed =>
      s.feedDone &&
      t == s.(feedDone := false, frame := s.frame + 1,
              coordinator := if s.frame + 1 < FRAMES then SetFetch else Finished)
    case Finished => false
  }

  predicate ProviderStep(job: Job, s: State, t: State)
    requires job.Gray()
  {
    match s.provider
    case ProviderWaits =>
      s.fetchStart && t == s.(fetchStart := false, provider := WritesTable(FirstLoop(s.fetchFrame, job.mode), 0))
    case WritesTable(loop, turn) =>
      && |s.table| == Lut.TABLE_SIZE && loop < LOOPS && turn < LoopLength(loop) && s.fetchFrame < 16
      && t == s.(table := OneStore(s.table, loop, turn, s.fetchFrame, job.mode), provider := AfterStore(loop, turn))
    case ProvidesRow(row) =>
      t == s.(provider := if row >= job.screenHeight then ProviderGives
                          else if !job.Drawn(row) then ProvidesRow(row + 1)
                          else SendsLine(row, job.LineOf(row)))
    case SendsLine(row, line) =>
      |s.queue| < QUEUE_SLOTS && t == s.(queue := s.queue + [line], provider := ProvidesRow(row + 1))
    case ProviderGives =>
      t == s.(fetchDone := true, provider := ProviderWaits)
  }

  /** The row a line converts to with a given table. */
  function RowOf(line: Line, table: Lut.Table, groups: nat): (r: Row)
    requires |line| == 8 * groups && |table| == Lut.TABLE_SIZE
    ensures |r| == 4 * groups
  {
    WholeGroups(|line|, groups);
    Input4bpp(line, table)
  }

  lemma {:induction false} WholeGroups(n: nat, groups: nat)
    requires n == 8 * groups
    ensures n % 8 == 0 && n / 2 == 4 * groups
  {
  }

  predicate FeederStep(job: Job, s: State, t: State)
    requires job.Gray()
  {
    match s.feeder
    case FeederWaits =>
      s.feedStart && t == s.(feedStart := false, ops := [], feeder := FeedsRow(0))
    case FeedsRow(row) =>
      if row >= job.screenHeight then t == s.(feeder := FeederGives)
      else if !job.Drawn(row) then t == s.(ops := s.ops + [Skip], feeder := FeedsRow(row + 1))
      else t == s.(feeder := ReceivesLine(row))
    case ReceivesLine(row) =>
      s.queue != [] && t == s.(queue := s.queue[1..], feeder := Converts(row, s.queue[0], 0, []))
    case Converts(row, line, words, stored) =>
      if words >= job.groups then t == s.(ops := s.ops + [Write(stored)], feeder := FeedsRow(row + 1))
      else
        && |line| == 8 * job.groups && |s.table| == Lut.TABLE_SIZE
        && t == s.(feeder := Converts(row, line, words + 1,
                                      stored + RowOf(line, s.table, job.groups)[4 * words..4 * (words + 1)]))
    case FeederGives =>
      t == s.(feedDone := true, frames := s.frames + [s.ops], feeder := FeederWaits)
  }

  predicate Next(job: Job, s: State, t: State)
    requires job.Gray()
  {
    CoordinatorStep(job, s, t) || ProviderStep(job, s, t) || FeederStep(job, s, t)
  }

  // ----- Progress of the two tasks within the frame -----

  predicate FetchNotStarted(s: State)
  {
    s.coordinator in {SetFetch, SetFeed, StartFetch} || s.fetchStart
  }

  predicate FeedNotStarted(s: State)
  {
    s.coordinator in {SetFetch, SetFeed, StartFetch, StartFeed} || s.feedStart
  }

  /** The provider has queued the drawn lines below this one. */
  function Provided(job: Job, s: State): nat
  {
    match s.provider
    case ProviderWaits => if FetchNotStarted(s) then 0 else job.screenHeight
    case WritesTable(_, _) => 0
    case ProvidesRow(row) => row
    case SendsLine(row, _) => row
    case ProviderGives => job.screenHeight
  }

  /** The feeder has received the drawn lines below this one. */
  function Received(job: Job, s: State): nat
  {
    match s.feeder
    case FeederWaits => if FeedNotStarted(s) then 0 else job.screenHeight
    case FeedsRow(row) => row
    case ReceivesLine(row) => row
    case Converts(row, _, _, _) => row + 1
    case FeederGives => job.screenHeight
  }

  /** The table the provider leaves for frame `k` of a draw that found table contents `t0`. */
  function TableFor(job: Job, t0: Lut.Table, k: nat): (t: Lut.Table)
    ensures |t| == |t0|
  {
    Lut.TableInFrame(t0, k, job.mode)
  }

  /** What the provider finds when frame `k` starts. */
  function TableBefore(job: Job, t0: Lut.Table, k: nat): (t: Lut.Table)
    ensures |t| == |t0|
  {
    if k == 0 then t0 else TableFor(job, t0, k - 1)
  }

  // ----- The invariant -----

  /** Who may be where, and what the semaphores say about it. */
  predicate Handshake(job: Job, s: State)
  {
    && (s.coordinator == Finished <==> s.frame == FRAMES) && s.frame <= FRAMES
    && (s.coordinator in {SetFetch, SetFeed, StartFetch, AwaitFeed, Finished} ==>
          s.provider == ProviderWaits && !s.fetchStart && !s.fetchDone)
    && (s.coordinator in {SetFetch, SetFeed, StartFetch, StartFeed, Finished} ==>
          s.feeder == FeederWaits && !s.feedStart && !s.feedDone)
    && (s.coordinator in {StartFeed, AwaitFetch} ==>
          && (s.provider == ProviderWaits <==> (s.fetchStart || s.fetchDone))
          && !(s.fetchStart && s.fetchDone)
          && s.fetchFrame == s.frame)
    && (s.coordinator in {AwaitFetch, AwaitFeed} ==>
          && (s.feeder == FeederWaits <==> (s.feedStart || s.feedDone))
          && !(s.feedStart && s.feedDone)
          && s.feedFrame == s.frame)
    && (s.coordinator in {SetFeed, StartFetch} ==> s.fetchFrame == s.frame)
    && (s.coordinator in {StartFetch, StartFeed} ==> s.feedFrame == s.frame)
    && (s.provider.ProvidesRow? ==> s.provider.row <= job.screenHeight)
    && (s.provider.SendsLine? ==> s.provider.row < job.screenHeight)
    && (s.feeder.FeedsRow? ==> s.feeder.row <= job.screenHeight)
    && (s.feeder.ReceivesLine? ==> s.feeder.row < job.screenHeight)
    && (s.feeder.Converts? ==> s.feeder.row < job.screenHeight && s.feeder.words <= job.groups)
  }

  /** No line from row `first` up to `end` is drawn. */
  predicate NoneDrawn(job: Job, first: nat, end: nat)
    requires job.Gray()
  {
    forall r | first <= r < end :: !job.Drawn(r)
  }

  /** The queue holds exactly the lines provided and not yet received, in order, and never overflows; the
      feeder gets ahead of the provider only over lines that are not drawn. */
  predicate QueueRight(job: Job, s: State)
    requires job.Gray()
  {
    && |s.queue| <= QUEUE_SLOTS
    && s.queue == job.Lines(Received(job, s), Provided(job, s))
    && NoneDrawn(job, Provided(job, s), Received(job, s))
    && (s.provider.SendsLine? ==> job.Drawn(s.provider.row) && s.provider.line == job.LineOf(s.provider.row))
    && (s.feeder.ReceivesLine? ==> job.Drawn(s.feeder.row))
    && (s.feeder.Converts? ==> job.Drawn(s.feeder.row) && s.feeder.line == job.LineOf(s.feeder.row))
  }

  /** The table is the previous frame's until the provider starts, and this frame's once it has written it; in
      between the stores made so far have been made on the previous frame's. */
  ghost predicate TableRight(job: Job, t0: Lut.Table, s: State)
  {
    && |s.table| == |t0| == Lut.TABLE_SIZE
    && (if s.coordinator == Finished then s.table == TableBefore(job, t0, s.frame)
        else if s.provider.WritesTable? then
          PartlyWritten(s.table, TableBefore(job, t0, s.frame), s.provider.loop, s.provider.turn, s.frame, job.mode)
        else if s.provider.ProviderWaits? && FetchNotStarted(s) then s.table == TableBefore(job, t0, s.frame)
        else s.table == TableFor(job, t0, s.frame))
  }

  /** The operations of frame `k` for the display lines below `count`. */
  function OpsFor(job: Job, t0: Lut.Table, k: nat, count: nat): seq<RowOp>
    requires job.Gray() && |t0| == Lut.TABLE_SIZE
  {
    PanelDriver.FeedOps(job, TableFor(job, t0, k), count)
  }

  /** The feeder has put out the right operations of this frame so far, and has converted part of a row with
      this frame's table. */
  predicate OpsRight(job: Job, t0: Lut.Table, s: State)
    requires job.Gray() && |t0| == Lut.TABLE_SIZE
  {
    && (s.feeder.FeedsRow? || s.feeder.ReceivesLine? || s.feeder.Converts? ==>
          s.ops == OpsFor(job, t0, s.frame, s.feeder.row))
    && (s.feeder.FeederGives? ==> s.ops == OpsFor(job, t0, s.frame, job.screenHeight))
    && (s.feeder.Converts? ==>
          && |s.feeder.line| == 8 * job.groups && s.feeder.words <= job.groups
          && s.feeder.stored
             == RowOf(s.feeder.line, TableFor(job, t0, s.frame), job.groups)[..4 * s.feeder.words])
  }

  /** All completed frames have exactly their operations. */
  predicate FramesRight(job: Job, t0: Lut.Table, s: State)
    requires job.Gray() && |t0| == Lut.TABLE_SIZE
  {
    && |s.frames| == s.frame + (if s.coordinator in {AwaitFetch, AwaitFeed} && s.feedDone then 1 else 0)
    && forall k | 0 <= k < |s.frames| :: s.frames[k] == OpsFor(job, t0, k, job.screenHeight)
  }

  ghost predicate Inv(job: Job, t0: Lut.Table, s: State)
  {
    && job.Gray() && |t0| == Lut.TABLE_SIZE
    && Handshake(job, s) && QueueRight(job, s) && TableRight(job, t0, s) && OpsRight(job, t0, s)
    && FramesRight(job, t0, s)
  }

  // ----- Every step keeps the invariant -----

  lemma {:induction false} InitInv(job: Job, s: State)
    requires job.Gray() && Init(job, s)
    ensures Inv(job, s.table, s)
  {
  }

  lemma {:induction false} CoordinatorKeeps(job: Job, t0: Lut.Table, s: State, t: State)
    requires Inv(job, t0, s) && CoordinatorStep(job, s, t)
    ensures Inv(job, t0, t)
  {
    assert Handshake(job, t);
    assert TableRight(job, t0, t);
    assert QueueRight(job, t);
  }

  /** While the provider has not queued anything yet, the feeder converts nothing. */
  lemma {:induction false} NothingConvertedYet(job: Job, s: State)
    requires job.Gray() && QueueRight(job, s) && Provided(job, s) == 0
    ensures !s.feeder.Converts?
  {
  }

  /** Mutual exclusion on the table: it is never written while a row is being converted with it. */
  lemma {:induction false} TableNotSharedWhileWritten(job: Job, t0: Lut.Table, s: State)
    requires Inv(job, t0, s)
    ensures !(s.provider.WritesTable? && s.feeder.Converts?)
    ensures s.feeder.Converts? ==> s.table == TableFor(job, t0, s.frame)
  {
    if Provided(job, s) == 0 {
      NothingConvertedYet(job, s);
    }
  }

  /** Moving the provider past row `row`. */
  lemma {:induction false} ProvidedGrows(job: Job, s: State, received: nat, row: nat)
    requires job.Gray() && NoneDrawn(job, row, received)
    ensures job.Lines(received, row + 1)
         == job.Lines(received, row) + (if job.Drawn(row) then [job.LineOf(row)] else [])
    ensures job.Drawn(row) ==> received <= row
    ensures NoneDrawn(job, row + 1, received)
  {
    if received <= row {
      job.LinesExtend(received, row);
    }
  }

  /** What a step of the provider can change. */
  predicate OnlyProvider(s: State, t: State)
  {
    t == s.(provider := t.provider, table := t.table, queue := t.queue,
            fetchStart := t.fetchStart, fetchDone := t.fetchDone)
  }

  lemma {:induction false} ProviderStays(job: Job, s: State, t: State)
    requires job.Gray() && ProviderStep(job, s, t)
    ensures OnlyProvider(s, t)
  {
  }

  lemma {:induction false} OpsStay(job: Job, t0: Lut.Table, s: State, t: State)
    requires job.Gray() && |t0| == Lut.TABLE_SIZE && OnlyProvider(s, t)
    requires OpsRight(job, t0, s) && FramesRight(job, t0, s)
    ensures OpsRight(job, t0, t) && FramesRight(job, t0, t)
  {
  }

  /** No step of the provider touches what the feeder has put out. */
  lemma {:induction false} ProviderLeavesOps(job: Job, t0: Lut.Table, s: State, t: State)
    requires Inv(job, t0, s) && ProviderStep(job, s, t)
    ensures OpsRight(job, t0, t) && FramesRight(job, t0, t)
  {
    ProviderStays(job, s, t);
    OpsStay(job, t0, s, t);
  }

  lemma {:induction false} ProviderWakes(job: Job, t0: Lut.Table, s: State, t: State)
    requires Inv(job, t0, s) && ProviderStep(job, s, t) && s.provider.ProviderWaits?
    ensures Inv(job, t0, t)
  {
    ProviderLeavesOps(job, t0, s, t);
    assert Provided(job, t) == Provided(job, s) == 0;
    NothingWritten(s.table, s.frame, job.mode);
  }

  lemma {:induction false} TableForIs(job: Job, t0: Lut.Table, k: nat)
    ensures TableFor(job, t0, k) == Lut.NextTable(TableBefore(job, t0, k), k, job.mode)
  {
  }

  /** What the table is after a store, and where the provider goes. */
  lemma {:induction false} StoreRight(found: Lut.Table, k: nat, mode: Lut.DrawMode, table: Lut.Table,
                                      loop: nat, turn: nat)
    requires PartlyWritten(table, found, loop, turn, k, mode)
    ensures |table| == Lut.TABLE_SIZE
    ensures var next, p := OneStore(table, loop, turn, k, mode), AfterStore(loop, turn);
      if p.WritesTable? then PartlyWritten(next, found, p.loop, p.turn, k, mode)
      else next == Lut.NextTable(found, k, mode)
  {
    StoreKeeps(table, found, loop, turn, k, mode);
  }

  lemma {:induction false} NoMoreLoops(loop: nat, turn: nat)
    ensures !AfterStore(loop, turn).ProviderWaits? && !AfterStore(loop, turn).SendsLine?
    ensures AfterStore(loop, turn).ProvidesRow? ==> AfterStore(loop, turn).row == 0
  {
  }

  lemma {:induction false} ProviderStores(job: Job, t0: Lut.Table, s: State, t: State)
    requires Inv(job, t0, s) && ProviderStep(job, s, t) && s.provider.WritesTable?
    ensures Inv(job, t0, t)
  {
    ProviderLeavesOps(job, t0, s, t);
    var loop, turn := s.provider.loop, s.provider.turn;
    NoMoreLoops(loop, turn);
    StoreRight(TableBefore(job, t0, s.frame), s.frame, job.mode, s.table, loop, turn);
    TableForIs(job, t0, s.frame);
    assert TableRight(job, t0, t);
    NothingConvertedYet(job, s);
    assert Provided(job, t) == Provided(job, s) == 0;
    assert QueueRight(job, t);
  }

  lemma {:induction false} ProviderAssembles(job: Job, t0: Lut.Table, s: State, t: State)
    requires Inv(job, t0, s) && ProviderStep(job, s, t) && s.provider.ProvidesRow?
    ensures Inv(job, t0, t)
  {
    ProviderLeavesOps(job, t0, s, t);
    ProvidedGrows(job, s, Received(job, s), s.provider.row);
    assert QueueRight(job, t);
  }

  lemma {:induction false} ProviderSends(job: Job, t0: Lut.Table, s: State, t: State)
    requires Inv(job, t0, s) && ProviderStep(job, s, t) && s.provider.SendsLine?
    ensures Inv(job, t0, t)
  {
    ProviderLeavesOps(job, t0, s, t);
    ProvidedGrows(job, s, Received(job, s), s.provider.row);
    assert QueueRight(job, t);
  }

  lemma {:induction false} ProviderEnds(job: Job, t0: Lut.Table, s: State, t: State)
    requires Inv(job, t0, s) && ProviderStep(job, s, t) && s.provider.ProviderGives?
    ensures Inv(job, t0, t)
  {
    ProviderLeavesOps(job, t0, s, t);
    assert Provided(job, t) == Provided(job, s);
  }

  lemma {:induction false} ProviderKeeps(job: Job, t0: Lut.Table, s: State, t: State)
    requires Inv(job, t0, s) && ProviderStep(job, s, t)
    ensures Inv(job, t0, t)
  {
    match s.provider {
      case ProviderWaits => ProviderWakes(job, t0, s, t);
      case WritesTable(_, _) => ProviderStores(job, t0, s, t);
      case ProvidesRow(_) => ProviderAssembles(job, t0, s, t);
      case SendsLine(_, _) => ProviderSends(job, t0, s, t);
      case ProviderGives => ProviderEnds(job, t0, s, t);
    }
  }

  lemma {:induction false} OpsExtend(job: Job, t0: Lut.Table, k: nat, count: nat)
    requires job.Gray() && |t0| == Lut.TABLE_SIZE
    ensures OpsFor(job, t0, k, count + 1)
         == OpsFor(job, t0, k, count) + [PanelDriver.FeedOp(job, TableFor(job, t0, k), count)]
  {
  }

  /** What a step of the feeder can change. */
  predicate OnlyFeeder(s: State, t: State)
  {
    t == s.(feeder := t.feeder, ops := t.ops, frames := t.frames, queue := t.queue,
            feedStart := t.feedStart, feedDone := t.feedDone)
  }

  lemma {:induction false} FeederStays(job: Job, s: State, t: State)
    requires job.Gray() && FeederStep(job, s, t)
    ensures OnlyFeeder(s, t)
  {
  }

  lemma {:induction false} TableStays(job: Job, t0: Lut.Table, s: State, t: State)
    requires TableRight(job, t0, s) && OnlyFeeder(s, t)
    ensures TableRight(job, t0, t)
  {
  }

  /** No step of the feeder touches the table. */
  lemma {:induction false} FeederLeavesTable(job: Job, t0: Lut.Table, s: State, t: State)
    requires Inv(job, t0, s) && FeederStep(job, s, t)
    ensures TableRight(job, t0, t)
  {
    FeederStays(job, s, t);
    TableStays(job, t0, s, t);
  }

  lemma {:induction false} FeederWakes(job: Job, t0: Lut.Table, s: State, t: State)
    requires Inv(job, t0, s) && FeederStep(job, s, t) && s.feeder.FeederWaits?
    ensures Inv(job, t0, t)
  {
    FeederLeavesTable(job, t0, s, t);
    assert OpsFor(job, t0, s.frame, 0) == [];
    assert Received(job, t) == Received(job, s);
  }

  lemma {:induction false} FeederPassesRow(job: Job, t0: Lut.Table, s: State, t: State)
    requires Inv(job, t0, s) && FeederStep(job, s, t) && s.feeder.FeedsRow?
    ensures Inv(job, t0, t)
  {
    FeederLeavesTable(job, t0, s, t);
    OpsExtend(job, t0, s.frame, s.feeder.row);
    assert QueueRight(job, t);
  }

  lemma {:induction false} FeederReceives(job: Job, t0: Lut.Table, s: State, t: State)
    requires Inv(job, t0, s) && FeederStep(job, s, t) && s.feeder.ReceivesLine?
    ensures Inv(job, t0, t)
  {
    FeederLeavesTable(job, t0, s, t);
    var row := s.feeder.row;
    assert s.queue[0] == job.LineOf(row) && s.queue[1..] == job.Lines(row + 1, Provided(job, s));
    assert QueueRight(job, t);
  }

  lemma {:induction false} FeederConverts(job: Job, t0: Lut.Table, s: State, t: State)
    requires Inv(job, t0, s) && FeederStep(job, s, t) && s.feeder.Converts? && s.feeder.words < job.groups
    ensures Inv(job, t0, t)
  {
    FeederLeavesTable(job, t0, s, t);
    TableNotSharedWhileWritten(job, t0, s);
    var row := RowOf(s.feeder.line, s.table, job.groups);
    assert row[..4 * s.feeder.words] + row[4 * s.feeder.words..4 * (s.feeder.words + 1)]
        == row[..4 * (s.feeder.words + 1)];
    assert Received(job, t) == Received(job, s);
    assert OpsRight(job, t0, t);
  }

  lemma {:induction false} FeederWrites(job: Job, t0: Lut.Table, s: State, t: State)
    requires Inv(job, t0, s) && FeederStep(job, s, t) && s.feeder.Converts? && s.feeder.words >= job.groups
    ensures Inv(job, t0, t)
  {
    FeederLeavesTable(job, t0, s, t);
    OpsExtend(job, t0, s.frame, s.feeder.row);
    assert s.feeder.stored == RowOf(s.feeder.line, TableFor(job, t0, s.frame), job.groups);
    assert Received(job, t) == Received(job, s);
    assert OpsRight(job, t0, t);
  }

  lemma {:induction false} FeederEnds(job: Job, t0: Lut.Table, s: State, t: State)
    requires Inv(job, t0, s) && FeederStep(job, s, t) && s.feeder.FeederGives?
    ensures Inv(job, t0, t)
  {
    FeederLeavesTable(job, t0, s, t);
    assert Received(job, t) == Received(job, s);
    assert FramesRight(job, t0, t);
  }

  lemma {:induction false} FeederKeeps(job: Job, t0: Lut.Table, s: State, t: State)
    requires Inv(job, t0, s) && FeederStep(job, s, t)
    ensures Inv(job, t0, t)
  {
    match s.feeder {
      case FeederWaits => FeederWakes(job, t0, s, t);
      case FeedsRow(_) => FeederPassesRow(job, t0, s, t);
      case ReceivesLine(_) => FeederReceives(job, t0, s, t);
      case Converts(_, _, words, _) =>
        if words < job.groups {
          FeederConverts(job, t0, s, t);
        } else {
          FeederWrites(job, t0, s, t);
        }
      case FeederGives => FeederEnds(job, t0, s, t);
    }
  }

  lemma {:induction false} NextKeeps(job: Job, t0: Lut.Table, s: State, t: State)
    requires Inv(job, t0, s) && Next(job, s, t)
    ensures Inv(job, t0, t)
  {
    if CoordinatorStep(job, s, t) {
      CoordinatorKeeps(job, t0, s, t);
    } else if ProviderStep(job, s, t) {
      ProviderKeeps(job, t0, s, t);
    } else {
      FeederKeeps(job, t0, s, t);
    }
  }

  /** When both tasks have reported the frame done, every queued line has been consumed. */
  lemma {:induction false} QueueEmptyWhenDone(job: Job, t0: Lut.Table, s: State)
    requires Inv(job, t0, s) && s.fetchDone && s.feedDone
    ensures s.queue == []
  {
  }

  // ----- No deadlock -----

  /** A blocked sender finds the feeder able to move: the queue it waits for is not empty. */
  lemma {:induction false} FeederMoves(job: Job, t0: Lut.Table, s: State) returns (t: State)
    requires Inv(job, t0, s) && s.coordinator in {AwaitFetch, AwaitFeed} && !s.feedDone
    requires s.queue != [] || Provided(job, s) == job.screenHeight
    ensures FeederStep(job, s, t)
  {
    match s.feeder {
      case FeederWaits => t := s.(feedStart := false, ops := [], feeder := FeedsRow(0));
      case FeedsRow(row) =>
        t := if row >= job.screenHeight then s.(feeder := FeederGives)
             else if !job.Drawn(row) then s.(ops := s.ops + [Skip], feeder := FeedsRow(row + 1))
             else s.(feeder := ReceivesLine(row));
      case ReceivesLine(row) =>
        t := s.(queue := s.queue[1..], feeder := Converts(row, s.queue[0], 0, []));
      case Converts(row, line, words, stored) =>
        t := if words >= job.groups then s.(ops := s.ops + [Write(stored)], feeder := FeedsRow(row + 1))
             else s.(feeder := Converts(row, line, words + 1,
                                      stored + RowOf(line, s.table, job.groups)[4 * words..4 * (words + 1)]));
      case FeederGives =>
        t := s.(feedDone := true, frames := s.frames + [s.ops], feeder := FeederWaits);
    }
  }

  lemma {:induction false} ProviderMoves(job: Job, t0: Lut.Table, s: State) returns (t: State)
    requires Inv(job, t0, s) && s.coordinator == AwaitFetch && !s.fetchDone
    requires s.provider.SendsLine? ==> |s.queue| < QUEUE_SLOTS
    ensures ProviderStep(job, s, t)
  {
    match s.provider {
      case ProviderWaits => t := s.(fetchStart := false, provider := WritesTable(FirstLoop(s.fetchFrame, job.mode), 0));
      case WritesTable(loop, turn) =>
        t := s.(table := OneStore(s.table, loop, turn, s.fetchFrame, job.mode), provider := AfterStore(loop, turn));
      case ProvidesRow(row) =>
        t := s.(provider := if row >= job.screenHeight then ProviderGives
                            else if !job.Drawn(row) then ProvidesRow(row + 1)
                            else SendsLine(row, job.LineOf(row)));
      case SendsLine(row, line) => t := s.(queue := s.queue + [line], provider := ProvidesRow(row + 1));
      case ProviderGives => t := s.(fetchDone := true, provider := ProviderWaits);
    }
  }

  /** No reachable state deadlocks: some process can move until the draw is finished. */
  lemma {:induction false} Progress(job: Job, t0: Lut.Table, s: State) returns (t: State)
    requires Inv(job, t0, s) && s.coordinator != Finished
    ensures Next(job, s, t)
  {
    match s.coordinator {
      case SetFetch => t := s.(fetchFrame := s.frame, coordinator := SetFeed);
      case SetFeed => t := s.(feedFrame := s.frame, coordinator := StartFetch);
      case StartFetch => t := s.(fetchStart := true, coordinator := StartFeed);
      case StartFeed => t := s.(feedStart := true, coordinator := AwaitFetch);
      case AwaitFetch =>
        if s.fetchDone {
          t := s.(fetchDone := false, coordinator := AwaitFeed);
        } else if s.provider.SendsLine? && |s.queue| == QUEUE_SLOTS {
          t := FeederMoves(job, t0, s);
        } else {
          t := ProviderMoves(job, t0, s);
        }
      case AwaitFeed =>
        if s.feedDone {
          t := s.(feedDone := false, frame := s.frame + 1,
                  coordinator := if s.frame + 1 < FRAMES then SetFetch else Finished);
        } else {
          t := FeederMoves(job, t0, s);
        }
    }
  }

  // ----- Every run ends -----

  const STORES: nat := Lut.TABLE_SIZE + 4 * CLEARS   // the most stores a frame can need

  function StoresLeft(loop: nat, turn: nat): int
  {
    if loop == 0 then STORES - turn else (LOOPS - loop) * CLEARS - turn
  }

  function RowWork(job: Job, rows: int): nat
    decreases rows, job.groups
  {
    if rows <= 0 then 0 else RowWork(job, rows - 1) + job.groups + 3
  }

  function ProviderLeft(job: Job, p: Provider, notStarted: bool): int
  {
    var h := job.screenHeight;
    match p
    case ProviderWaits => if notStarted then STORES + 2 * h + 3 else 0
    case WritesTable(loop, turn) => StoresLeft(loop, turn) + 2 * h + 2
    case ProvidesRow(row) => 2 * (h - row) + 2
    case SendsLine(row, _) => 2 * (h - row) + 1
    case ProviderGives => 1
  }

  function FeederLeft(job: Job, f: Feeder, notStarted: bool): int
  {
    var h := job.screenHeight;
    match f
    case FeederWaits => if notStarted then RowWork(job, h) + 3 else 0
    case FeedsRow(row) => RowWork(job, h - row) + 2
    case ReceivesLine(row) => RowWork(job, h - row) + 1
    case Converts(row, _, words, _) => RowWork(job, h - row - 1) + 3 + (job.groups - words)
    case FeederGives => 1
  }

  function ProviderWork(job: Job, s: State): int { ProviderLeft(job, s.provider, FetchNotStarted(s)) }

  function FeederWork(job: Job, s: State): int { FeederLeft(job, s.feeder, FeedNotStarted(s)) }

  function CoordinatorWork(s: State): int
  {
    match s.coordinator
    case SetFetch => 6
    case SetFeed => 5
    case StartFetch => 4
    case StartFeed => 3
    case AwaitFetch => 2
    case AwaitFeed => 1
    case Finished => 0
  }

  function FrameWork(job: Job, frames: int): nat
    decreases frames, job.groups
  {
    if frames <= 0 then 0
    else FrameWork(job, frames - 1) + 7 + (STORES + 2 * job.screenHeight + 3) + (RowWork(job, job.screenHeight) + 3)
  }

  /** A bound on the steps still to come. */
  function Work(job: Job, s: State): int
  {
    FrameWork(job, FRAMES - s.frame) + CoordinatorWork(s) + ProviderWork(job, s) + FeederWork(job, s)
  }

  lemma {:induction false} FrameEnds(job: Job, frames: nat)
    requires frames > 0
    ensures FrameWork(job, frames) == FrameWork(job, frames - 1) + 7 + (STORES + 2 * job.screenHeight + 3)
                                      + (RowWork(job, job.screenHeight) + 3)
  {
  }

  lemma {:induction false} FrameEndWorks(job: Job, s: State, t: State)
    requires Handshake(job, s) && CoordinatorStep(job, s, t) && s.coordinator == AwaitFeed
    ensures Work(job, t) < Work(job, s)
  {
    FrameEnds(job, FRAMES - s.frame);
  }

  lemma {:induction false} CoordinatorMoves(job: Job, s: State, t: State)
    requires CoordinatorStep(job, s, t) && s.coordinator != AwaitFeed
    ensures t.frame == s.frame && t.provider == s.provider && t.feeder == s.feeder
    ensures FetchNotStarted(t) == FetchNotStarted(s) && FeedNotStarted(t) == FeedNotStarted(s)
    ensures CoordinatorWork(t) < CoordinatorWork(s)
  {
  }

  lemma {:induction false} CoordinatorWorks(job: Job, s: State, t: State)
    requires Handshake(job, s) && CoordinatorStep(job, s, t)
    ensures Work(job, t) < Work(job, s)
  {
    if s.coordinator == AwaitFeed {
      FrameEndWorks(job, s, t);
    } else {
      CoordinatorMoves(job, s, t);
    }
  }

  lemma {:induction false} StoreWorks(job: Job, loop: nat, turn: nat, notStarted: bool)
    requires loop < LOOPS && turn < LoopLength(loop)
    ensures ProviderLeft(job, AfterStore(loop, turn), notStarted)
          < ProviderLeft(job, WritesTable(loop, turn), notStarted)
  {
    assert loop == 0 || loop == 1 || loop == 2 || loop == 3 || loop == 4;
  }

  lemma {:induction false} ProviderGoesOn(job: Job, s: State, t: State)
    requires job.Gray() && Handshake(job, s) && ProviderStep(job, s, t)
    ensures ProviderWork(job, t) < ProviderWork(job, s)
  {
    match s.provider
    case ProviderWaits => assert FetchNotStarted(s);
    case WritesTable(loop, turn) => StoreWorks(job, loop, turn, FetchNotStarted(s));
    case ProvidesRow(_) =>
    case SendsLine(_, _) =>
    case ProviderGives =>
  }

  lemma {:induction false} ProviderWorks(job: Job, t0: Lut.Table, s: State, t: State)
    requires Inv(job, t0, s) && ProviderStep(job, s, t)
    ensures Work(job, t) < Work(job, s)
  {
    ProviderGoesOn(job, s, t);
    ProviderStays(job, s, t);
    RestOfWork(job, s, t);
  }

  lemma {:induction false} RestOfWork(job: Job, s: State, t: State)
    requires (OnlyProvider(s, t) && ProviderWork(job, t) < ProviderWork(job, s))
             || (OnlyFeeder(s, t) && FeederWork(job, t) < FeederWork(job, s))
    ensures Work(job, t) < Work(job, s)
  {
    if OnlyProvider(s, t) && ProviderWork(job, t) < ProviderWork(job, s) {
      assert FeederWork(job, t) == FeederWork(job, s);
    } else {
      assert ProviderWork(job, t) == ProviderWork(job, s);
    }
  }

  lemma {:induction false} RowDone(job: Job, rows: nat)
    requires rows > 0
    ensures RowWork(job, rows) == RowWork(job, rows - 1) + job.groups + 3
  {
  }

  lemma {:induction false} ConversionGoesOn(job: Job, row: nat, line: Line, words: nat, stored: Row, f: Feeder, b: bool)
    requires words <= job.groups
    requires f == FeedsRow(row + 1) || (words < job.groups && f.Converts? && f.row == row && f.words == words + 1)
    ensures FeederLeft(job, f, b) < FeederLeft(job, Converts(row, line, words, stored), b)
  {
    assert job.screenHeight - (row + 1) == job.screenHeight - row - 1;
  }

  lemma {:induction false} FeederGoesOn(job: Job, s: State, t: State)
    requires job.Gray() && Handshake(job, s) && FeederStep(job, s, t)
    ensures FeederWork(job, t) < FeederWork(job, s)
  {
    var h, b := job.screenHeight, FeedNotStarted(s);
    match s.feeder
    case FeederWaits => assert b && t.feeder == FeedsRow(0) && h - 0 == h;
    case FeedsRow(row) => if row < h { RowDone(job, h - row); }
    case ReceivesLine(row) => RowDone(job, h - row);
    case Converts(row, line, words, stored) => ConversionGoesOn(job, row, line, words, stored, t.feeder, b);
    case FeederGives =>
  }

  lemma {:induction false} FeederWorks(job: Job, t0: Lut.Table, s: State, t: State)
    requires Inv(job, t0, s) && FeederStep(job, s, t)
    ensures Work(job, t) < Work(job, s)
  {
    FeederGoesOn(job, s, t);
    FeederStays(job, s, t);
    RestOfWork(job, s, t);
  }

  lemma {:induction false} EveryStepWorks(job: Job, t0: Lut.Table, s: State, t: State)
    requires Inv(job, t0, s) && Next(job, s, t)
    ensures Work(job, t) < Work(job, s)
  {
    if CoordinatorStep(job, s, t) {
      CoordinatorWorks(job, s, t);
    } else if ProviderStep(job, s, t) {
      ProviderWorks(job, t0, s, t);
    } else {
      FeederWorks(job, t0, s, t);
    }
  }

  // ----- Whole runs -----

  predicate StepAt(job: Job, run: seq<State>, i: nat)
    requires job.Gray() && i + 1 < |run|
  {
    Next(job, run[i], run[i + 1])
  }

  /** Any interleaving of the three processes, from the start of a draw. */
  predicate Run(job: Job, run: seq<State>)
    requires job.Gray()
  {
    && run != [] && Init(job, run[0])
    && forall i | 0 <= i < |run| - 1 :: StepAt(job, run, i)
  }

  lemma {:induction false} RunSteps(job: Job, run: seq<State>, i: nat)
    requires job.Gray() && Run(job, run) && 0 < i < |run|
    ensures Next(job, run[i - 1], run[i])
  {
    assert StepAt(job, run, i - 1);
  }

  lemma {:induction false} RunStarts(job: Job, run: seq<State>)
    requires job.Gray() && Run(job, run)
    ensures Inv(job, run[0].table, run[0])
  {
    InitInv(job, run[0]);
  }

  lemma {:induction false} RunKeepsInvariant(job: Job, run: seq<State>, i: nat)
    requires job.Gray() && Run(job, run) && i < |run|
    ensures Inv(job, run[0].table, run[i])
  {
    if i == 0 {
      RunStarts(job, run);
    } else {
      RunKeepsInvariant(job, run, i - 1);
      RunSteps(job, run, i);
      NextKeeps(job, run[0].table, run[i - 1], run[i]);
    }
  }

  lemma {:induction false} StepWorks(job: Job, run: seq<State>, i: nat)
    requires 0 < i < |run| && Inv(job, run[0].table, run[i - 1]) && Next(job, run[i - 1], run[i])
    ensures Work(job, run[i]) < Work(job, run[i - 1])
  {
    EveryStepWorks(job, run[0].table, run[i - 1], run[i]);
  }

  lemma {:induction false} RunWorks(job: Job, run: seq<State>, i: nat)
    requires job.Gray() && Run(job, run) && i < |run|
    ensures Work(job, run[i]) + i <= Work(job, run[0])
  {
    if i > 0 {
      RunWorks(job, run, i - 1);
      RunKeepsInvariant(job, run, i - 1);
      RunSteps(job, run, i);
      StepWorks(job, run, i);
    }
  }

  /** Over every run: the table is never written while a row is being converted, the conversion uses this
      frame's table, the queue never overflows, and it is empty when both tasks report done. */
  lemma {:induction false} RunIsSafe(job: Job, run: seq<State>, i: nat)
    requires job.Gray() && Run(job, run) && i < |run|
    ensures !(run[i].provider.WritesTable? && run[i].feeder.Converts?)
    ensures run[i].feeder.Converts? ==> run[i].table == TableFor(job, run[0].table, run[i].frame)
    ensures |run[i].queue| <= 32
    ensures run[i].fetchDone && run[i].feedDone ==> run[i].queue == []
  {
    RunKeepsInvariant(job, run, i);
    TableNotSharedWhileWritten(job, run[0].table, run[i]);
  }

  /** No run is longer than the work at its start, so every run can be extended to one that is stuck. */
  lemma {:induction false} RunsAreBounded(job: Job, run: seq<State>)
    requires job.Gray() && Run(job, run)
    ensures |run| <= Work(job, run[0]) + 1
  {
    RunKeepsInvariant(job, run, |run| - 1);
    RunWorks(job, run, |run| - 1);
    WorkIsNatural(job, run[0].table, run[|run| - 1]);
  }

  lemma {:induction false} WorkLeft(job: Job, s: State)
    requires Handshake(job, s)
    requires s.provider.WritesTable? ==> s.provider.loop < LOOPS && s.provider.turn < LoopLength(s.provider.loop)
    ensures ProviderWork(job, s) >= 0 && FeederWork(job, s) >= 0 && CoordinatorWork(s) >= 0
  {
  }

  lemma {:induction false} WorkIsNatural(job: Job, t0: Lut.Table, s: State)
    requires Inv(job, t0, s)
    ensures Work(job, s) >= 0
  {
    WorkLeft(job, s);
  }

  ghost predicate Stuck(job: Job, s: State)
    requires job.Gray()
  {
    forall t :: !Next(job, s, t)
  }

  /** A run that cannot go on has finished the draw: fifteen frames, and in frame k every drawn line of the
      area was put out as exactly its line converted with the table updated through frame k, all other
      display lines were skipped, and everything is idle again for the next draw. */
  lemma {:induction false} StuckRunHasDrawn(job: Job, run: seq<State>)
    requires job.Gray() && Run(job, run)
    requires Stuck(job, run[|run| - 1])
    ensures var s := run[|run| - 1];
      && s.coordinator == Finished && Idle(s) && |s.frames| == 15
      && forall k | 0 <= k < 15 ::
           s.frames[k] == PanelDriver.FeedOps(job, Lut.TableInFrame(run[0].table, k, job.mode), job.screenHeight)
  {
    var s := run[|run| - 1];
    RunKeepsInvariant(job, run, |run| - 1);
    if s.coordinator != Finished {
      var t := Progress(job, run[0].table, s);
      assert false;
    }
    assert forall k | 0 <= k < FRAMES :: s.frames[k] == OpsFor(job, run[0].table, k, job.screenHeight);
  }
}
