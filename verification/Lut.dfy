/** The conversion table of a grayscale draw: for every four-pixel word of a line, one byte
    holding the four 2-bit actions of the current frame. It is reset in frame 0 and then
    only ever loses actions, one grey level per frame. */
module Lut {
  import opened Bits

  const TABLE_SIZE := 0x10000

  datatype DrawMode = BlackOnWhite | WhiteOnWhite | WhiteOnBlack | UnknownMode

  type Table = seq<bv8>

  /** The grey level whose pixels stop being driven in frame `k`. */
  function Level(mode: DrawMode, k: nat): int
  {
    if mode == BlackOnWhite || mode == WhiteOnWhite then 15 - k else k
  }

  /** The action a pixel gets as long as it is driven: 01 darkens, 10 lightens. */
  function Action(mode: DrawMode): bv8
  {
    if mode == BlackOnWhite then 1 else 2
  }

  // ----- Value specification -----

  /** One table entry after the four loops of an update for grey level `v`. */
  function Cleared(b: bv8, idx: nat, v: int): bv8
  {
    var b0 := if IndexNibble(idx, 0) == v then b & 0xFC else b;
    var b1 := if IndexNibble(idx, 1) == v then b0 & 0xF3 else b0;
    var b2 := if IndexNibble(idx, 2) == v then b1 & 0xCF else b1;
    if IndexNibble(idx, 3) == v then b2 & 0x3F else b2
  }

  function ResetTable(t: Table, mode: DrawMode): (r: Table)
    ensures |r| == |t|
  {
    match mode
    case BlackOnWhite => seq(|t|, i => 0x55)
    case WhiteOnBlack | WhiteOnWhite => seq(|t|, i => 0xAA)
    case UnknownMode => t
  }

  function UpdatedTable(t: Table, k: nat, mode: DrawMode): (r: Table)
    ensures |r| == |t|
  {
    seq(|t|, i requires 0 <= i < |t| => Cleared(t[i], i, Level(mode, k)))
  }

  /** The table of frame `k`, made from the table the previous frame left behind. */
  function NextTable(t: Table, k: nat, mode: DrawMode): (r: Table)
    ensures |r| == |t|
  {
    UpdatedTable(if k == 0 then ResetTable(t, mode) else t, k, mode)
  }

  /** The table in use in frame `k` of a draw that starts with table contents `t`. */
  function TableInFrame(t: Table, k: nat, mode: DrawMode): (r: Table)
    ensures |r| == |t|
    decreases k, |t|
  {
    NextTable(if k == 0 then t else TableInFrame(t, k - 1, mode), k, mode)
  }

  // ----- The in-place code -----

  method Reset(lut: array<bv8>, mode: DrawMode)
    requires lut.Length == TABLE_SIZE
    modifies lut
    ensures lut[..] == ResetTable(old(lut[..]), mode)
    ensures mode == UnknownMode ==> lut[..] == old(lut[..])
    ensures mode != UnknownMode ==>
              forall i | 0 <= i < lut.Length :: lut[i] == if mode == BlackOnWhite then 0x55 else 0xAA
  {
    match mode
    case BlackOnWhite => Fill(lut, 0x55);
    case WhiteOnBlack | WhiteOnWhite => Fill(lut, 0xAA);
    case UnknownMode =>
  }

  method Fill(a: array<bv8>, value: bv8)
    modifies a
    ensures forall i | 0 <= i < a.Length :: a[i] == value
  {
    for i := 0 to a.Length
      invariant forall j | 0 <= j < i :: a[j] == value
    {
      a[i] := value;
    }
  }

  /** The table with the entries below `bound` masked where nibble `n` of the index is `v`. */
  ghost predicate MaskedBelow(now: Table, before: Table, n: nat, v: int, mask: bv8, bound: int)
    requires n < 4
  {
    |now| == |before| &&
    forall i | 0 <= i < |now| ::
      now[i] == if i < bound && IndexNibble(i, n) == v then before[i] & mask else before[i]
  }

  /** From `lo` up to `hi` every index has digit `v` as nibble `n`. */
  ghost predicate Run(n: nat, v: int, lo: nat, hi: nat)
    requires n < 4
  {
    forall i: nat | lo <= i < hi :: IndexNibble(i, n) == v
  }

  /** From `lo` up to `hi` no index has digit `v` as nibble `n`. */
  ghost predicate Gap(n: nat, v: int, lo: nat, hi: nat)
    requires n < 4
  {
    forall i: nat | lo <= i < hi :: IndexNibble(i, n) != v
  }

  method MaskInPlace(lut: array<bv8>, l: nat, mask: bv8)
    requires l < lut.Length
    modifies lut
    ensures lut[..] == old(lut[..])[l := old(lut[l]) & mask]
  {
    lut[l] := lut[l] & mask;
  }

  lemma {:induction false} MaskEntry(now: Table, before: Table, n: nat, v: int, mask: bv8, l: nat)
    requires n < 4 && l < |now| && MaskedBelow(now, before, n, v, mask, l) && IndexNibble(l, n) == v
    ensures MaskedBelow(now[l := now[l] & mask], before, n, v, mask, l + 1)
  {
  }

  lemma {:induction false} SkipEntries(now: Table, before: Table, n: nat, v: int, mask: bv8, l: nat, next: nat)
    requires n < 4 && l <= next && MaskedBelow(now, before, n, v, mask, l)
    requires Gap(n, v, l, next)
    ensures MaskedBelow(now, before, n, v, mask, next)
  {
  }

  /** The inner loop: masks `len` consecutive entries from l on. */
  method MaskRun(lut: array<bv8>, ghost before: Table, n: nat, v: int, mask: bv8, l: nat, len: nat)
    requires n < 4 && l + len <= lut.Length && MaskedBelow(lut[..], before, n, v, mask, l) && Run(n, v, l, l + len)
    modifies lut
    ensures MaskedBelow(lut[..], before, n, v, mask, l + len)
  {
    for p := 0 to len
      invariant MaskedBelow(lut[..], before, n, v, mask, l + p)
    {
      MaskEntry(lut[..], before, n, v, mask, l + p);
      MaskInPlace(lut, l + p, mask);
    }
  }

  /** Between two blocks of entries with digit `k` there is no further entry with that digit. */
  lemma {:induction false} NextDigit(blocks: nat, k: nat, e: nat)
    requires k < 16 && 1 <= e < 16
    ensures (16 * blocks + k + e) % 16 != k
  {
    if k + e < 16 {
      assert (16 * blocks + (k + e)) % 16 == k + e;
    } else {
      assert (16 * (blocks + 1) + (k + e - 16)) % 16 == k + e - 16;
    }
  }

  /** Entry l has digit `k`, and none of the next fifteen has. */
  lemma {:induction false} FirstStride(m: nat, l: nat, k: nat)
    requires k < 16 && l == 16 * m + k
    ensures IndexNibble(l, 0) == k
    ensures Gap(0, k, l + 1, l + 16)
  {
    forall i | l + 1 <= i < l + 16 ensures IndexNibble(i, 0) != k {
      NextDigit(m, k, i - l);
    }
  }

  method ClearFirstPixel(lut: array<bv8>, k: nat)
    requires lut.Length == TABLE_SIZE && k < 16
    modifies lut
    ensures MaskedBelow(lut[..], old(lut[..]), 0, k, 0xFC, TABLE_SIZE)
  {
    ghost var before := lut[..];
    var l := k;
    ghost var m := 0;
    while l < TABLE_SIZE
      invariant l == 16 * m + k && m <= 4096
      invariant MaskedBelow(lut[..], before, 0, k, 0xFC, l)
    {
      FirstStride(m, l, k);
      MaskEntry(lut[..], before, 0, k, 0xFC, l);
      MaskInPlace(lut, l, 0xFC);
      SkipEntries(lut[..], before, 0, k, 0xFC, l + 1, l + 16);
      l, m := l + 16, m + 1;
    }
  }

  /** Entries l..l+15 have digit `k`, and none of the rest of the stride has. */
  lemma {:induction false} SecondStride(m: nat, l: nat, k: nat)
    requires k < 16 && l == 256 * m + 16 * k
    ensures Run(1, k, l, l + 16) && Gap(1, k, l + 16, l + 256)
  {
    forall i | l <= i < l + 16 ensures IndexNibble(i, 1) == k {
      assert i / 16 == 16 * m + k;
    }
    forall i | l + 16 <= i < l + 256 ensures IndexNibble(i, 1) != k {
      var e := (i - l) / 16;
      assert i / 16 == 16 * m + k + e;
      NextDigit(m, k, e);
    }
  }

  method ClearSecondPixel(lut: array<bv8>, k: nat)
    requires lut.Length == TABLE_SIZE && k < 16
    modifies lut
    ensures MaskedBelow(lut[..], old(lut[..]), 1, k, 0xF3, TABLE_SIZE)
  {
    ghost var before := lut[..];
    var l := k * 16;
    SkipEntries(lut[..], before, 1, k, 0xF3, 0, l);
    ghost var m := 0;
    while l < TABLE_SIZE
      invariant l == 256 * m + 16 * k && m <= 256
      invariant MaskedBelow(lut[..], before, 1, k, 0xF3, l)
    {
      SecondStride(m, l, k);
      MaskRun(lut, before, 1, k, 0xF3, l, 16);
      SkipEntries(lut[..], before, 1, k, 0xF3, l + 16, l + 256);
      l, m := l + 256, m + 1;
    }
  }

  /** Entries l..l+255 have digit `k`, and none of the rest of the stride has. */
  lemma {:induction false} ThirdStride(m: nat, l: nat, k: nat)
    requires k < 16 && l == 4096 * m + 256 * k
    ensures Run(2, k, l, l + 256) && Gap(2, k, l + 256, l + 4096)
  {
    forall i | l <= i < l + 256 ensures IndexNibble(i, 2) == k {
      assert i / 256 == 16 * m + k;
    }
    forall i | l + 256 <= i < l + 4096 ensures IndexNibble(i, 2) != k {
      var e := (i - l) / 256;
      assert i / 256 == 16 * m + k + e;
      NextDigit(m, k, e);
    }
  }

  method ClearThirdPixel(lut: array<bv8>, k: nat)
    requires lut.Length == TABLE_SIZE && k < 16
    modifies lut
    ensures MaskedBelow(lut[..], old(lut[..]), 2, k, 0xCF, TABLE_SIZE)
  {
    ghost var before := lut[..];
    var l := k * 256;
    SkipEntries(lut[..], before, 2, k, 0xCF, 0, l);
    ghost var m := 0;
    while l < TABLE_SIZE
      invariant l == 4096 * m + 256 * k && m <= 16
      invariant MaskedBelow(lut[..], before, 2, k, 0xCF, l)
    {
      ThirdStride(m, l, k);
      MaskRun(lut, before, 2, k, 0xCF, l, 256);
      SkipEntries(lut[..], before, 2, k, 0xCF, l + 256, l + 4096);
      l, m := l + 4096, m + 1;
    }
  }

  method ClearFourthPixel(lut: array<bv8>, k: nat)
    requires lut.Length == TABLE_SIZE && k < 16
    modifies lut
    ensures MaskedBelow(lut[..], old(lut[..]), 3, k, 0x3F, TABLE_SIZE)
  {
    ghost var before := lut[..];
    SkipEntries(lut[..], before, 3, k, 0x3F, 0, k * 4096);
    MaskRun(lut, before, 3, k, 0x3F, k * 4096, 4096);
    SkipEntries(lut[..], before, 3, k, 0x3F, (k + 1) * 4096, TABLE_SIZE);
  }

  lemma {:induction false} MaskedInTurn(t0: Table, t1: Table, t2: Table, t3: Table, t4: Table, v: nat)
    requires MaskedBelow(t1, t0, 0, v, 0xFC, |t0|) && MaskedBelow(t2, t1, 1, v, 0xF3, |t0|)
    requires MaskedBelow(t3, t2, 2, v, 0xCF, |t0|) && MaskedBelow(t4, t3, 3, v, 0x3F, |t0|)
    ensures |t4| == |t0| && forall i | 0 <= i < |t0| :: t4[i] == Cleared(t0[i], i, v)
  {
  }

  /** One frame's update. Level 15 - k or k must name a nibble, or the code would write outside the table. */
  method Update(lut: array<bv8>, k: nat, mode: DrawMode)
    requires lut.Length == TABLE_SIZE && k < 16
    modifies lut
    ensures lut[..] == UpdatedTable(old(lut[..]), k, mode)
  {
    var level := k;
    if mode == BlackOnWhite || mode == WhiteOnWhite {
      level := 15 - k;
    }
    ghost var t0 := lut[..];
    ClearFirstPixel(lut, level);
    ghost var t1 := lut[..];
    ClearSecondPixel(lut, level);
    ghost var t2 := lut[..];
    ClearThirdPixel(lut, level);
    ghost var t3 := lut[..];
    ClearFourthPixel(lut, level);
    MaskedInTurn(t0, t1, t2, t3, lut[..], level);
  }

  /** What the line provider does to the table at the start of frame `k`. */
  method PrepareFrame(lut: array<bv8>, k: nat, mode: DrawMode)
    requires lut.Length == TABLE_SIZE && k < 16
    modifies lut
    ensures lut[..] == NextTable(old(lut[..]), k, mode)
  {
    if k == 0 {
      Reset(lut, mode);
    }
    Update(lut, k, mode);
  }

  // ----- What the table means -----

  /** Pixels of grey value `v` are no longer driven in frame `k`. */
  predicate Stopped(mode: DrawMode, v: nat, k: nat)
  {
    match mode
    case BlackOnWhite | WhiteOnWhite => v >= 15 - k
    case WhiteOnBlack | UnknownMode => v <= k
  }

  /** An update takes away exactly the fields whose grey value is the level of the frame. */
  lemma {:induction false} UpdateClearsOneLevel(b: bv8, idx: nat, v: int, n: nat)
    requires n < 4
    ensures Field(Cleared(b, idx, v), n) == if IndexNibble(idx, n) == v then 0 else Field(b, n)
  {
    if n == 0 {
    } else if n == 1 {
    } else if n == 2 {
    } else {
      assert n == 3;
    }
  }

  /** The update of a frame in numbers: on a white display it counts the levels down from 15, else up from 0. */
  lemma {:induction false} UpdateInNumbers(t: Table, k: nat, mode: DrawMode, idx: nat, n: nat)
    requires idx < |t| && n < 4
    ensures Field(UpdatedTable(t, k, mode)[idx], n) ==
      if IndexNibble(idx, n) == (if mode == BlackOnWhite || mode == WhiteOnWhite then 15 - k else k) then 0
      else Field(t[idx], n)
  {
    UpdateClearsOneLevel(t[idx], idx, Level(mode, k), n);
  }

  /** After the updates of frames 0..k, field `n` of entry `idx` is empty exactly when the
      grey value of pixel `n` of the word `idx` has stopped, and holds the mode's action otherwise,
      whatever the table held before the draw. */
  lemma {:induction false} TableMeaning(t: Table, k: nat, mode: DrawMode, idx: nat, n: nat)
    requires mode != UnknownMode && idx < |t| && n < 4 && k < 16
    ensures Field(TableInFrame(t, k, mode)[idx], n)
         == if Stopped(mode, IndexNibble(idx, n), k) then 0 else Action(mode)
  {
    var before := if k == 0 then ResetTable(t, mode) else TableInFrame(t, k - 1, mode);
    UpdateClearsOneLevel(before[idx], idx, Level(mode, k), n);
    if k > 0 {
      TableMeaning(t, k - 1, mode, idx, n);
    } else {
      assert n == 0 || n == 1 || n == 2 || n == 3;
    }
  }

  /** A pixel of grey value `v` on a white display is driven in exactly the frames 0..14-v. */
  lemma {:induction false} FramesDriven(t: Table, k: nat, mode: DrawMode, idx: nat, n: nat)
    requires mode == BlackOnWhite || mode == WhiteOnWhite
    requires idx < |t| && n < 4 && k < 15
    ensures Field(TableInFrame(t, k, mode)[idx], n) != 0 <==> k <= 14 - IndexNibble(idx, n)
  {
    TableMeaning(t, k, mode, idx, n);
  }
}
