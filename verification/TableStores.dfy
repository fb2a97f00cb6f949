/** The provider's work on the conversion table, store by store: the reset and the four clearing loops, each of
    which writes one entry a turn, and what all stores of a frame add up to. */
module TableStores {
  import Arith
  import opened Bits
  import opened Lut

  const CLEARS: nat := 4096   // turns of each clearing loop
  const LOOPS: nat := 5       // the reset is loop 0, and loop n + 1 clears field n

  function LoopLength(loop: nat): nat { if loop == 0 then TABLE_SIZE else CLEARS }

  /** A frame starts with the reset only if it is the first one and its mode is known. */
  function FirstLoop(k: nat, mode: DrawMode): nat { if k == 0 && mode != UnknownMode then 0 else 1 }

  /** The entry that turn `j` of the loop for field `n` writes. */
  function Target(n: nat, j: nat, v: nat): (e: nat)
    requires n < 4 && j < CLEARS && v < 16
    ensures e < TABLE_SIZE
  {
    match n
    case 0 => v + 16 * j
    case 1 => 16 * v + 256 * (j / 16) + j % 16
    case 2 => 256 * v + 4096 * (j / 256) + j % 256
    case 3 => 4096 * v + j
  }

  function Mask(n: nat): bv8
    requires n < 4
  {
    match n
    case 0 => 0xFC
    case 1 => 0xF3
    case 2 => 0xCF
    case 3 => 0x3F
  }

  /** One store: turn `j` of a loop in frame `k`. */
  function OneStore(t: Table, loop: nat, j: nat, k: nat, mode: DrawMode): (r: Table)
    requires |t| == TABLE_SIZE && loop < LOOPS && j < LoopLength(loop) && k < 16
    ensures |r| == |t|
  {
    if loop == 0 then t[j := if mode == BlackOnWhite then 0x55 else 0xAA]
    else var e := Target(loop - 1, j, Level(mode, k)); t[e := t[e] & Mask(loop - 1)]
  }

  /** The table after the first `j` turns of a loop. */
  function AfterTurns(t: Table, loop: nat, j: nat, k: nat, mode: DrawMode): (r: Table)
    requires |t| == TABLE_SIZE && loop < LOOPS && j <= LoopLength(loop) && k < 16
    ensures |r| == |t|
    decreases j, |t|
  {
    if j == 0 then t else OneStore(AfterTurns(t, loop, j - 1, k, mode), loop, j - 1, k, mode)
  }

  /** The table when a loop starts. */
  function BeforeLoop(t: Table, loop: nat, k: nat, mode: DrawMode): (r: Table)
    requires |t| == TABLE_SIZE && loop <= LOOPS && k < 16
    ensures |r| == |t|
    decreases loop, |t|
  {
    if loop <= FirstLoop(k, mode) then t
    else AfterTurns(BeforeLoop(t, loop - 1, k, mode), loop - 1, LoopLength(loop - 1), k, mode)
  }

  // ----- What the stores add up to -----

  lemma {:induction false} AfterReset(t: Table, j: nat, k: nat, mode: DrawMode)
    requires |t| == TABLE_SIZE && j <= TABLE_SIZE && k < 16
    ensures forall i | 0 <= i < TABLE_SIZE ::
      AfterTurns(t, 0, j, k, mode)[i] == if i < j then (if mode == BlackOnWhite then 0x55 else 0xAA) else t[i]
  {
    if j > 0 {
      AfterReset(t, j - 1, k, mode);
    }
  }

  /** The entries that the first `j` turns of the loop for field `n` write. */
  function Targets(n: nat, j: nat, v: nat): set<nat>
    requires n < 4 && j <= CLEARS && v < 16
  {
    if j == 0 then {} else Targets(n, j - 1, v) + {Target(n, j - 1, v)}
  }

  /** The turn of the loop for field `n` that writes entry `i`. */
  function TurnOf(n: nat, i: nat): nat
    requires n < 4
  {
    match n
    case 0 => i / 16
    case 1 => 16 * (i / 256) + i % 16
    case 2 => 256 * (i / 4096) + i % 256
    case 3 => i % 4096
  }

  /** Digit v between a higher part and a lower part of `unit` values. */
  lemma {:induction false} DigitBetween(a: nat, v: nat, b: nat)
    requires v < 16
    ensures (v + 16 * a) % 16 == v
    ensures b < 16 ==> (16 * v + 256 * a + b) / 16 % 16 == v
    ensures b < 256 ==> (256 * v + 4096 * a + b) / 256 % 16 == v
    ensures b < 4096 ==> (4096 * v + b) / 4096 % 16 == v
  {
    assert b < 16 ==> (16 * v + 256 * a + b) / 16 == v + 16 * a;
    assert b < 256 ==> (256 * v + 4096 * a + b) / 256 == v + 16 * a;
    assert b < 4096 ==> (4096 * v + b) / 4096 == v;
  }

  lemma {:induction false} TargetHasNibble(n: nat, j: nat, v: nat)
    requires n < 4 && j < CLEARS && v < 16
    ensures IndexNibble(Target(n, j, v), n) == v
  {
    match n
    case 0 => DigitBetween(j, v, 0);
    case 1 => DigitBetween(j / 16, v, j % 16);
    case 2 => DigitBetween(j / 256, v, j % 256);
    case 3 => DigitBetween(0, v, j);
  }

  lemma {:induction false} TargetOfTurn(n: nat, i: nat)
    requires n < 4 && i < TABLE_SIZE
    ensures TurnOf(n, i) < CLEARS && Target(n, TurnOf(n, i), IndexNibble(i, n)) == i
  {
    match n
    case 0 => FirstTurn(i);
    case 1 => SecondTurn(i);
    case 2 => ThirdTurn(i);
    case 3 => FourthTurn(i);
  }

  lemma {:induction false} FirstTurn(i: nat)
    requires i < TABLE_SIZE
    ensures i / 16 < CLEARS && i % 16 + 16 * (i / 16) == i
  {
  }

  lemma {:induction false} SecondTurn(i: nat)
    requires i < TABLE_SIZE
    ensures var j := 16 * (i / 256) + i % 16;
      j < CLEARS && 16 * (i / 16 % 16) + 256 * (j / 16) + j % 16 == i
  {
    Rejoined(i / 256, i % 16, 16);
    Split(i, 16);
  }

  lemma {:induction false} ThirdTurn(i: nat)
    requires i < TABLE_SIZE
    ensures var j := 256 * (i / 4096) + i % 256;
      j < CLEARS && 256 * (i / 256 % 16) + 4096 * (j / 256) + j % 256 == i
  {
    Rejoined(i / 4096, i % 256, 256);
    Split(i, 256);
  }

  lemma {:induction false} FourthTurn(i: nat)
    requires i < TABLE_SIZE
    ensures i % 4096 < CLEARS && 4096 * (i / 4096 % 16) + i % 4096 == i
  {
  }

  lemma {:induction false} Rejoined(a: nat, d: nat, unit: nat)
    requires (unit == 16 || unit == 256) && d < unit
    ensures (unit * a + d) / unit == a && (unit * a + d) % unit == d
  {
    Arith.Divided(a, d, unit);
  }

  /** A number is its digit at this unit with what is above and what is below. */
  lemma {:induction false} Split(i: nat, unit: nat)
    requires unit == 16 || unit == 256
    ensures i == 16 * unit * (i / (16 * unit)) + unit * (i / unit % 16) + i % unit
  {
    if unit == 16 {
      assert i / 16 / 16 == i / 256;
    } else {
      assert i / 256 / 16 == i / 4096;
    }
  }

  lemma {:induction false} TargetsHaveNibble(n: nat, j: nat, v: nat, i: nat)
    requires n < 4 && j <= CLEARS && v < 16 && i in Targets(n, j, v)
    ensures IndexNibble(i, n) == v
  {
    if i == Target(n, j - 1, v) {
      TargetHasNibble(n, j - 1, v);
    } else {
      TargetsHaveNibble(n, j - 1, v, i);
    }
  }

  lemma {:induction false} EveryTurnCounts(n: nat, j: nat, v: nat, turn: nat)
    requires n < 4 && turn < j <= CLEARS && v < 16
    ensures Target(n, turn, v) in Targets(n, j, v)
  {
    if turn < j - 1 {
      EveryTurnCounts(n, j - 1, v, turn);
    }
  }

  /** A whole loop writes exactly the entries whose nibble is the level. */
  lemma {:induction false} AllTargets(n: nat, j: nat, v: nat, i: nat)
    requires n < 4 && j == CLEARS && v < 16 && i < TABLE_SIZE
    ensures i in Targets(n, j, v) <==> IndexNibble(i, n) == v
  {
    if i in Targets(n, j, v) {
      TargetsHaveNibble(n, j, v, i);
    }
    if IndexNibble(i, n) == v {
      TargetOfTurn(n, i);
      EveryTurnCounts(n, j, v, TurnOf(n, i));
    }
  }

  ghost predicate MaskedAt(now: Table, before: Table, targets: set<nat>, mask: bv8)
  {
    |now| == |before| &&
    forall i: nat | i < |now| :: now[i] == if i in targets then before[i] & mask else before[i]
  }

  lemma {:induction false} MaskTwice(b: bv8, mask: bv8)
    ensures b & mask & mask == b & mask
  {
  }

  lemma {:induction false} MaskOneMore(now: Table, before: Table, targets: set<nat>, mask: bv8, e: nat)
    requires MaskedAt(now, before, targets, mask) && e < |now|
    ensures MaskedAt(now[e := now[e] & mask], before, targets + {e}, mask)
  {
    MaskTwice(before[e], mask);
  }

  lemma {:induction false} AfterClears(t: Table, n: nat, j: nat, k: nat, mode: DrawMode)
    requires |t| == TABLE_SIZE && n < 4 && j <= CLEARS && k < 16
    ensures MaskedAt(AfterTurns(t, n + 1, j, k, mode), t, Targets(n, j, Level(mode, k)), Mask(n))
  {
    if j > 0 {
      AfterClears(t, n, j - 1, k, mode);
      var now, v := AfterTurns(t, n + 1, j - 1, k, mode), Level(mode, k);
      MaskOneMore(now, t, Targets(n, j - 1, v), Mask(n), Target(n, j - 1, v));
    }
  }

  /** A whole loop masks exactly the entries whose nibble is the level. */
  lemma {:induction false} LoopMasks(t: Table, n: nat, k: nat, mode: DrawMode)
    requires |t| == TABLE_SIZE && n < 4 && k < 16
    ensures MaskedBelow(BeforeLoop(t, n + 2, k, mode), BeforeLoop(t, n + 1, k, mode), n, Level(mode, k), Mask(n),
                        TABLE_SIZE)
  {
    var v, j := Level(mode, k), LoopLength(n + 1);
    var before, now := BeforeLoop(t, n + 1, k, mode), BeforeLoop(t, n + 2, k, mode);
    assert now == AfterTurns(before, n + 1, j, k, mode);
    AfterClears(before, n, j, k, mode);
    WholeLoop(now, before, n, v, j);
  }

  lemma {:induction false} WholeLoop(now: Table, before: Table, n: nat, v: nat, j: nat)
    requires n < 4 && v < 16 && j == CLEARS && |now| == TABLE_SIZE && MaskedAt(now, before, Targets(n, j, v), Mask(n))
    ensures MaskedBelow(now, before, n, v, Mask(n), TABLE_SIZE)
  {
    forall i: nat | i < TABLE_SIZE
      ensures i in Targets(n, j, v) <==> IndexNibble(i, n) == v
    {
      AllTargets(n, j, v, i);
    }
  }

  lemma {:induction false} FourLoops(t: Table, first: nat, k: nat, mode: DrawMode)
    requires |t| == TABLE_SIZE && k < 16 && first == 1
    ensures BeforeLoop(t, first + 4, k, mode) == UpdatedTable(BeforeLoop(t, first, k, mode), k, mode)
  {
    var n := first - 1;
    LoopMasks(t, n, k, mode);
    LoopMasks(t, n + 1, k, mode);
    LoopMasks(t, n + 2, k, mode);
    LoopMasks(t, n + 3, k, mode);
    MaskedInTurn(BeforeLoop(t, n + 1, k, mode), BeforeLoop(t, n + 2, k, mode), BeforeLoop(t, n + 3, k, mode),
                 BeforeLoop(t, n + 4, k, mode), BeforeLoop(t, n + 5, k, mode), Level(mode, k));
  }

  lemma {:induction false} ResetDone(t: Table, first: nat, k: nat, mode: DrawMode)
    requires |t| == TABLE_SIZE && k < 16 && first == 1
    ensures BeforeLoop(t, first, k, mode) == if k == 0 then ResetTable(t, mode) else t
  {
    if FirstLoop(k, mode) == 0 {
      AfterReset(BeforeLoop(t, first - 1, k, mode), LoopLength(first - 1), k, mode);
    }
  }

  /** All stores of frame `k` turn the table the frame found into the table of the frame. */
  lemma {:induction false} AllStores(t: Table, loops: nat, k: nat, mode: DrawMode)
    requires |t| == TABLE_SIZE && k < 16 && loops == LOOPS
    ensures BeforeLoop(t, loops, k, mode) == NextTable(t, k, mode)
  {
    ResetDone(t, loops - 4, k, mode);
    FourLoops(t, loops - 4, k, mode);
  }

  // ----- The table while it is being written -----

  /** The loops before `loop` are done and this one has made `turn` of its turns, on the table found. */
  ghost predicate PartlyWritten(table: Table, found: Table, loop: nat, turn: nat, k: nat, mode: DrawMode)
  {
    && |found| == TABLE_SIZE && k < 16 && FirstLoop(k, mode) <= loop < LOOPS && turn < LoopLength(loop)
    && table == AfterTurns(BeforeLoop(found, loop, k, mode), loop, turn, k, mode)
  }

  lemma {:induction false} NothingWritten(found: Table, k: nat, mode: DrawMode)
    requires |found| == TABLE_SIZE && k < 16
    ensures PartlyWritten(found, found, FirstLoop(k, mode), 0, k, mode)
  {
  }

  /** The table after the last turn of a loop. */
  lemma {:induction false} LoopEnds(next: Table, found: Table, loop: nat, turns: nat, k: nat, mode: DrawMode)
    requires |found| == TABLE_SIZE && k < 16 && FirstLoop(k, mode) <= loop < LOOPS && turns == LoopLength(loop)
    requires next == AfterTurns(BeforeLoop(found, loop, k, mode), loop, turns, k, mode)
    ensures if loop + 1 < LOOPS then PartlyWritten(next, found, loop + 1, 0, k, mode)
            else next == NextTable(found, k, mode)
  {
    assert next == BeforeLoop(found, loop + 1, k, mode);
    if loop + 1 == LOOPS {
      AllStores(found, loop + 1, k, mode);
    }
  }

  /** A store is one more; the last one of all completes the table of the frame. */
  lemma {:induction false} StoreKeeps(table: Table, found: Table, loop: nat, turn: nat, k: nat, mode: DrawMode)
    requires PartlyWritten(table, found, loop, turn, k, mode)
    ensures |table| == TABLE_SIZE
    ensures var next := OneStore(table, loop, turn, k, mode);
      if turn + 1 < LoopLength(loop) then PartlyWritten(next, found, loop, turn + 1, k, mode)
      else if loop + 1 < LOOPS then PartlyWritten(next, found, loop + 1, 0, k, mode)
      else next == NextTable(found, k, mode)
  {
    var next := OneStore(table, loop, turn, k, mode);
    assert next == AfterTurns(BeforeLoop(found, loop, k, mode), loop, turn + 1, k, mode);
    if turn + 1 == LoopLength(loop) {
      LoopEnds(next, found, loop, turn + 1, k, mode);
    }
  }
}
