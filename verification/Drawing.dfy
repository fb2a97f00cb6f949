/** What a whole draw does to the screen: the frame engine, the row pipeline, line assembly and the
    conversion table put together, pixel by pixel and frame by frame. */
module Drawing {
  import opened Bits
  import opened DrawJob
  import opened RowFormat
  import opened Panel
  import opened FrameEngine
  import Lut
  import PanelDriver

  /** The action pixel `p` of display line `i` got in the frame just finished; none if no pulse reached the line. */
  function DrivenField(s: Panel.State, i: nat, p: nat): bv8
    requires i + 1 < |s.driven| ==> |s.Applied(i)| % 4 == 0 && p < 4 * |s.Applied(i)|
  {
    if i + 1 < |s.driven| then PanelField(s.Applied(i), p) else 0
  }

  /** The action meant for a pixel in frame `k`. */
  function MeantField(job: Job, k: nat, i: nat, p: nat): bv8
    requires job.Gray()
  {
    if job.Drawn(i) && !Lut.Stopped(job.mode, job.Pixel(i, p) as nat, k) then Lut.Action(job.mode) else 0
  }

  lemma {:induction false} ZeroFields(size: nat, p: nat)
    requires size % 4 == 0 && p < 4 * size
    ensures PanelField(ZeroRow(size), p) == 0
  {
    PlaceInWord(p / 4, size);
    assert p % 4 == 0 || p % 4 == 1 || p % 4 == 2 || p % 4 == 3;
  }

  /** A line converted in frame `k` has the mode's action exactly at the pixels that have not stopped. */
  lemma {:induction false} ConvertedPixel(line: Line, t0: Lut.Table, k: nat, mode: Lut.DrawMode, p: nat)
    requires |line| % 8 == 0 && |t0| == Lut.TABLE_SIZE && mode != Lut.UnknownMode && k < 16 && p < 2 * |line|
    ensures PanelField(Input4bpp(line, Lut.TableInFrame(t0, k, mode)), p)
         == if Lut.Stopped(mode, NibbleAt(line, p) as nat, k) then 0 else Lut.Action(mode)
  {
    InputPixels(line, Lut.TableInFrame(t0, k, mode), p);
    Lut.TableMeaning(t0, k, mode, IndexAt(line, p / 4), p % 4);
  }

  /** The row of display line `i` in frame `k` carries the meant action for every pixel. */
  lemma {:induction false} OpCarriesMeantFields(job: Job, t0: Lut.Table, k: nat, i: nat, p: nat)
    requires job.Gray() && job.mode != Lut.UnknownMode && |t0| == Lut.TABLE_SIZE
    requires k < 15 && p < job.Width()
    ensures var row := Meant(PanelDriver.FeedOp(job, Lut.TableInFrame(t0, k, job.mode), i), 4 * job.groups);
      |row| == 4 * job.groups && PanelField(row, p) == MeantField(job, k, i, p)
  {
    var table := Lut.TableInFrame(t0, k, job.mode);
    if job.Drawn(i) {
      var line := job.LineOf(i);
      WholeGroups(|line|, job.groups);
      ConvertedPixel(line, t0, k, job.mode, p);
      job.LinePixels(i, p);
    } else {
      ZeroFields(4 * job.groups, p);
    }
  }

  lemma {:induction false} OpsHaveSize(job: Job, table: Lut.Table)
    requires job.Gray() && |table| == Lut.TABLE_SIZE
    ensures RowsHaveSize(PanelDriver.FeedOps(job, table, job.screenHeight), 4 * job.groups)
  {
  }

  /** Any frame drives each pixel by the operation of its line, including a last line no pulse reaches. */
  lemma {:induction false} FrameDrivesOps(before: Panel.State, ops: seq<RowOp>, size: nat, i: nat, p: nat)
    requires before.Sound(size) && RowsHaveSize(ops, size) && size % 4 == 0 && i < |ops| && p < 4 * size
    ensures var s := FrameDone(before, ops);
      s.Sound(size)
      && (i + 1 < |s.driven| ==> |s.Applied(i)| == size)
      && |Meant(ops[i], size)| == size
      && DrivenField(s, i, p) == PanelField(Meant(ops[i], size), p)
  {
    FrameShowsMeantRows(before, ops, size);
    var s, meant := FrameDone(before, ops), MeantRows(ops, size);
    if i + 1 < |s.driven| {
      assert s.Applied(i) == meant[i];
    } else {
      assert i == |meant| - 1 && meant[i] == ZeroRow(size);
      ZeroFields(size, p);
    }
  }

  lemma {:induction false} WholeWords(groups: nat)
    ensures 4 * groups % 4 == 0
  {
  }

  /** One frame with the table of frame `k`, put out from any sound panel state, drives every pixel of the
      screen exactly as meant. */
  lemma {:induction false} FrameDrivesMeantFields(job: Job, t0: Lut.Table, before: Panel.State, k: nat, i: nat, p: nat)
    requires job.Gray() && job.mode != Lut.UnknownMode && |t0| == Lut.TABLE_SIZE
    requires before.Sound(4 * job.groups) && k < 15 && i < job.screenHeight && p < job.Width()
    ensures var ops := PanelDriver.FeedOps(job, Lut.TableInFrame(t0, k, job.mode), job.screenHeight);
      var s := FrameDone(before, ops);
      s.Sound(4 * job.groups)
      && (i + 1 < |s.driven| ==> |s.Applied(i)| == 4 * job.groups)
      && DrivenField(s, i, p) == MeantField(job, k, i, p)
  {
    var ops := PanelDriver.FeedOps(job, Lut.TableInFrame(t0, k, job.mode), job.screenHeight);
    OpsHaveSize(job, Lut.TableInFrame(t0, k, job.mode));
    OpCarriesMeantFields(job, t0, k, i, p);
    WholeWords(job.groups);
    FrameDrivesOps(before, ops, 4 * job.groups, i, p);
  }

  lemma {:induction false} MonoOpCarriesSetPixels(job: Job, op: RowOp, i: nat, p: nat)
    requires job.Mono() && job.mode != Lut.UnknownMode && p < job.Width() && PanelDriver.MonoOp(job, op, i)
    ensures var row := Meant(op, 4 * job.groups);
      |row| == 4 * job.groups
      && PanelField(row, p) == if job.Drawn(i) && job.Set(i, p) then Lut.Action(job.mode) else 0
  {
    if !job.Drawn(i) {
      ZeroFields(4 * job.groups, p);
    }
  }

  /** A 1 bit frame with the right operation for every display line, as the driver puts it out, drives exactly
      the set pixels of the drawn lines, whatever was shown before. */
  lemma {:induction false} MonoFrameDrivesSetPixels(job: Job, before: Panel.State, ops: seq<RowOp>, i: nat, p: nat)
    requires job.Mono() && job.mode != Lut.UnknownMode && before.Sound(4 * job.groups)
    requires |ops| == job.screenHeight && forall j | 0 <= j < |ops| :: PanelDriver.MonoOp(job, ops[j], j)
    requires i < job.screenHeight && p < job.Width()
    ensures var s := FrameDone(before, ops);
      s.Sound(4 * job.groups)
      && (i + 1 < |s.driven| ==> |s.Applied(i)| == 4 * job.groups)
      && DrivenField(s, i, p) == if job.Drawn(i) && job.Set(i, p) then Lut.Action(job.mode) else 0
  {
    forall j | 0 <= j < |ops| && ops[j].Write?
      ensures |ops[j].row| == 4 * job.groups
    {
      assert PanelDriver.MonoOp(job, ops[j], j);
    }
    MonoOpCarriesSetPixels(job, ops[i], i, p);
    WholeWords(job.groups);
    FrameDrivesOps(before, ops, 4 * job.groups, i, p);
  }

  /** The panel after the frames of a finished draw up to and including frame `k`. */
  ghost function AfterFrame(s: FrameEngine.State, panel: Panel.State, k: nat): Panel.State
    requires k < |s.frames|
  {
    FramesDone(panel, s.frames[..k + 1])
  }

  lemma {:induction false} PanelStaysSound(job: Job, t0: Lut.Table, frames: seq<seq<RowOp>>, panel: Panel.State)
    requires job.Gray() && |t0| == Lut.TABLE_SIZE && |frames| <= FRAMES && panel.Sound(4 * job.groups)
    requires forall k | 0 <= k < |frames| ::
      frames[k] == PanelDriver.FeedOps(job, Lut.TableInFrame(t0, k, job.mode), job.screenHeight)
    ensures FramesDone(panel, frames).Sound(4 * job.groups)
  {
    if frames == [] {
    } else {
      var k := |frames| - 1;
      PanelStaysSound(job, t0, frames[..k], panel);
      OpsHaveSize(job, Lut.TableInFrame(t0, k, job.mode));
      FrameShowsMeantRows(FramesDone(panel, frames[..k]), frames[k], 4 * job.groups);
    }
  }

  /** Every interleaving of a draw that has come to its end, on a panel in any sound state, has driven
      every pixel of the screen, in every frame, exactly as meant. */
  lemma {:induction false} DrawDrivesMeantFields(job: Job, run: seq<FrameEngine.State>, panel: Panel.State, k: nat,
                                                 i: nat, p: nat)
    requires job.Gray() && job.mode != Lut.UnknownMode && Run(job, run) && Stuck(job, run[|run| - 1])
    requires panel.Sound(4 * job.groups) && k < 15 && i < job.screenHeight && p < job.Width()
    ensures var s := run[|run| - 1];
      |s.frames| == 15 &&
      var after := AfterFrame(s, panel, k);
      (i + 1 < |after.driven| ==> |after.Applied(i)| == 4 * job.groups)
      && DrivenField(after, i, p) == MeantField(job, k, i, p)
  {
    StuckRunHasDrawn(job, run);
    var s, t0 := run[|run| - 1], run[0].table;
    PanelStaysSound(job, t0, s.frames[..k], panel);
    NextFrame(panel, s.frames, k);
    FrameDrivesMeantFields(job, t0, FramesDone(panel, s.frames[..k]), k, i, p);
  }

  /** On a white display, a pixel shown with grey value v is driven in exactly the frames 0..14-v, and a pixel
      that shows no image is never driven. For a clean area that is the image in its place. */
  lemma {:induction false} WhiteDisplayDraw(job: Job, run: seq<FrameEngine.State>, panel: Panel.State, k: nat, i: nat,
                                            p: nat)
    requires job.Gray() && (job.mode == Lut.BlackOnWhite || job.mode == Lut.WhiteOnWhite)
    requires Run(job, run) && Stuck(job, run[|run| - 1])
    requires panel.Sound(4 * job.groups) && k < 15 && i < job.screenHeight && p < job.Width()
    ensures var s := run[|run| - 1];
      |s.frames| == 15 &&
      var after := AfterFrame(s, panel, k);
      (i + 1 < |after.driven| ==> |after.Applied(i)| == 4 * job.groups)
      && (DrivenField(after, i, p) != 0 <==>
            job.Drawn(i) && job.Shown(p) && k + (job.Pixel(i, p) as nat) <= 14)
      && (job.Clean() ==>
            (DrivenField(after, i, p) != 0 <==>
               job.Drawn(i) && job.area.x <= p < job.area.x + job.area.width
               && k + (job.ImagePixel(i, p) as nat) <= 14))
      && (DrivenField(after, i, p) == 0 || DrivenField(after, i, p) == Lut.Action(job.mode))
  {
    DrawDrivesMeantFields(job, run, panel, k, i, p);
    if job.Clean() {
      job.CleanShowsArea(p);
    }
  }

  /** A pixel beside the image shown, on a drawn line, is driven in a frame if and only if the mode is the one for a
      black display: there the white padding of the line counts as image. */
  lemma {:induction false} BesideTheArea(job: Job, run: seq<FrameEngine.State>, panel: Panel.State, k: nat, i: nat,
                                         p: nat)
    requires job.Gray() && job.mode != Lut.UnknownMode && Run(job, run) && Stuck(job, run[|run| - 1])
    requires panel.Sound(4 * job.groups) && k < 15 && i < job.screenHeight && p < job.Width()
    requires !job.Shown(p)
    ensures var s := run[|run| - 1];
      |s.frames| == 15 &&
      var after := AfterFrame(s, panel, k);
      (i + 1 < |after.driven| ==> |after.Applied(i)| == 4 * job.groups)
      && (DrivenField(after, i, p) != 0 <==> job.mode == Lut.WhiteOnBlack && job.Drawn(i))
  {
    DrawDrivesMeantFields(job, run, panel, k, i, p);
  }

  // ----- The draw in numbers, for an area whose columns are on the screen -----

  /** Pixel `p` of display line `i` gets an action in frame `k` of a draw. */
  ghost predicate DrivenIn(s: FrameEngine.State, panel: Panel.State, k: nat, i: nat, p: nat)
  {
    k < |s.frames| && i + 1 < |AfterFrame(s, panel, k).driven| &&
    var row := AfterFrame(s, panel, k).driven[i + 1];
    |row| % 4 == 0 && p < 4 * |row| && PanelField(row, p) != 0
  }

  /** Display line `i` is in the area and not left out by the line mask. */
  predicate LineDrawn(job: Job, i: nat)
  {
    job.area.y <= i < job.area.y + job.area.height &&
    match job.drawnLines
    case None => true
    case Some(mask) => i - job.area.y < |mask| && mask[i - job.area.y]
  }

  /** The value of the image at a pixel: two to a byte, the first one in the low nibble; 15 beside the area. */
  function Grey(job: Job, i: nat, p: nat): nat
  {
    var at := 2 * ((job.area.width + 1) / 2 * (i - job.area.y)) + (p - job.area.x);
    if job.area.x <= p < job.area.x + job.area.width && 0 <= at < 2 * |job.data|
    then (if at % 2 == 0 then job.data[at / 2] & 0x0F else job.data[at / 2] >> 4) as nat else 15
  }

  lemma {:induction false} GreyIsPixel(job: Job, i: nat, p: nat)
    requires job.Gray() && 0 <= job.area.x && job.area.x + job.area.width <= 16 * job.groups
    requires LineDrawn(job, i) && p < 16 * job.groups
    ensures job.Drawn(i) && Grey(job, i, p) == job.Pixel(i, p) as nat
  {
    job.OnScreenIsClean();
    job.CleanShowsArea(p);
    if job.area.x <= p < job.area.x + job.area.width {
      job.ImageInNumbers(i, p);
    }
  }

  /** Whether the image with 1 bit per pixel has a pixel set, the first one of a byte being the lowest bit. */
  predicate BitSet(job: Job, i: nat, p: nat)
  {
    var at := 8 * ((job.area.width + 7) / 8 * (i - job.area.y)) + (p - job.area.x);
    job.area.x <= p < job.area.x + job.area.width && 0 <= at < 8 * |job.data| && BitAt(job.data, at)
  }

  lemma {:induction false} BitIsSet(job: Job, i: nat, p: nat)
    requires job.Mono() && 0 <= job.area.x && job.area.x + job.area.width <= 16 * job.groups
    requires LineDrawn(job, i) && p < 16 * job.groups
    ensures job.Drawn(i) && (BitSet(job, i, p) <==> job.Set(i, p))
  {
    job.OnScreenIsClean();
    job.CleanShowsArea(p);
    if job.area.x <= p < job.area.x + job.area.width {
      job.MonoImageInNumbers(i, p);
    }
  }

  /** A 1 bit frame in numbers: the set pixels of the drawn lines are darkened for black on white and else lightened,
      and nothing else is driven. */
  lemma {:induction false} MonoFrameInNumbers(job: Job, before: Panel.State, ops: seq<RowOp>, i: nat, p: nat)
    requires job.Mono() && job.mode != Lut.UnknownMode && before.Sound(4 * job.groups)
    requires 0 <= job.area.x && job.area.x + job.area.width <= 16 * job.groups
    requires |ops| == job.screenHeight && forall j | 0 <= j < |ops| :: PanelDriver.MonoOp(job, ops[j], j)
    requires i < job.screenHeight && p < 16 * job.groups
    ensures var s := FrameDone(before, ops);
      if i + 1 < |s.driven| then
        |s.driven[i + 1]| == 4 * job.groups && PanelField(s.driven[i + 1], p)
          == if LineDrawn(job, i) && BitSet(job, i, p) then (if job.mode == Lut.BlackOnWhite then 1 else 2) else 0
      else !(LineDrawn(job, i) && BitSet(job, i, p))
  {
    MonoFrameDrivesSetPixels(job, before, ops, i, p);
    if LineDrawn(job, i) {
      BitIsSet(job, i, p);
    }
  }

  /** The frames in which a pixel of value `v` is driven. */
  predicate DrivesValue(mode: Lut.DrawMode, v: nat, k: nat)
  {
    if mode == Lut.WhiteOnBlack then k < v else k + v < 15
  }

  /** A finished draw has put out fifteen frames. On a drawn line, a pixel of value v has been driven in the
      frames 0..14-v, or 0..v-1 on a black display, always darkened for black on white and else lightened;
      no other line has been driven. */
  lemma {:induction false} DrawInNumbers(job: Job, run: seq<FrameEngine.State>, panel: Panel.State, k: nat, i: nat,
                                         p: nat)
    requires job.Gray() && job.mode != Lut.UnknownMode && Run(job, run) && Stuck(job, run[|run| - 1])
    requires 0 <= job.area.x && job.area.x + job.area.width <= 16 * job.groups
    requires panel.Sound(4 * job.groups) && k < 15 && i < job.screenHeight && p < 16 * job.groups
    ensures var s := run[|run| - 1];
      |s.frames| == 15
      && (DrivenIn(s, panel, k, i, p) <==> LineDrawn(job, i) && DrivesValue(job.mode, Grey(job, i, p), k))
      && (DrivenIn(s, panel, k, i, p) ==>
            PanelField(AfterFrame(s, panel, k).driven[i + 1], p) == if job.mode == Lut.BlackOnWhite then 1 else 2)
  {
    DrawDrivesMeantFields(job, run, panel, k, i, p);
    MeantInNumbers(job, k, i, p);
    DrivenIs(run[|run| - 1], panel, job.groups, k, i, p);
  }

  lemma {:induction false} DrivenIs(s: FrameEngine.State, panel: Panel.State, groups: nat, k: nat, i: nat, p: nat)
    requires k < |s.frames| && p < 16 * groups
    requires i + 1 < |AfterFrame(s, panel, k).driven| ==> |AfterFrame(s, panel, k).Applied(i)| == 4 * groups
    ensures DrivenIn(s, panel, k, i, p) <==> DrivenField(AfterFrame(s, panel, k), i, p) != 0
    ensures DrivenIn(s, panel, k, i, p) ==>
      PanelField(AfterFrame(s, panel, k).driven[i + 1], p) == DrivenField(AfterFrame(s, panel, k), i, p)
  {
    WholeWords(groups);
  }

  lemma {:induction false} MeantInNumbers(job: Job, k: nat, i: nat, p: nat)
    requires job.Gray() && job.mode != Lut.UnknownMode && k < 15 && p < 16 * job.groups
    requires 0 <= job.area.x && job.area.x + job.area.width <= 16 * job.groups
    ensures MeantField(job, k, i, p) == if LineDrawn(job, i) && DrivesValue(job.mode, Grey(job, i, p), k)
                                        then (if job.mode == Lut.BlackOnWhite then 1 else 2) else 0
  {
    if LineDrawn(job, i) {
      GreyIsPixel(job, i, p);
    }
  }

  ghost function FirstFrames(n: nat): (frames: set<nat>)
    ensures |frames| == n && forall k: nat :: k in frames <==> k < n
  {
    if n == 0 then {} else FirstFrames(n - 1) + {n - 1}
  }

  lemma {:induction false} GreyIsSmall(job: Job, i: nat, p: nat)
    ensures Grey(job, i, p) <= 15
  {
  }

  /** So it has been driven in 15 - v frames, or in v on a black display. */
  lemma {:induction false} FramesCounted(job: Job, run: seq<FrameEngine.State>, panel: Panel.State, i: nat, p: nat)
    requires job.Gray() && job.mode != Lut.UnknownMode && Run(job, run) && Stuck(job, run[|run| - 1])
    requires 0 <= job.area.x && job.area.x + job.area.width <= 16 * job.groups
    requires panel.Sound(4 * job.groups) && i < job.screenHeight && p < 16 * job.groups
    ensures var s, v := run[|run| - 1], Grey(job, i, p);
      |set k: nat | k < |s.frames| && DrivenIn(s, panel, k, i, p)|
      == if !LineDrawn(job, i) then 0 else if job.mode == Lut.WhiteOnBlack then v else 15 - v
  {
    var s, v := run[|run| - 1], Grey(job, i, p);
    var n: int := if !LineDrawn(job, i) then 0 else if job.mode == Lut.WhiteOnBlack then v else 15 - v;
    StuckRunHasDrawn(job, run);
    GreyIsSmall(job, i, p);
    forall k: nat | k < 15
      ensures DrivenIn(s, panel, k, i, p) <==> k < n
    {
      DrawInNumbers(job, run, panel, k, i, p);
    }
    FirstAreDriven(s, panel, i, p, n);
  }

  lemma {:induction false} FirstAreDriven(s: FrameEngine.State, panel: Panel.State, i: nat, p: nat, n: nat)
    requires n <= |s.frames| && forall k: nat | k < |s.frames| :: DrivenIn(s, panel, k, i, p) <==> k < n
    ensures |set k: nat | k < |s.frames| && DrivenIn(s, panel, k, i, p)| == n
  {
    var driven := set k: nat | k < |s.frames| && DrivenIn(s, panel, k, i, p);
    forall k: nat
      ensures k in driven <==> k in FirstFrames(n)
    {
    }
    assert driven == FirstFrames(n);
  }
}
