# A verified model of the display stack

This project models, in Dafny, the two rendering engines of an ESP32 e-paper controller and the text and
number layer under them, and proves what they compute. It verifies with `dafny verify dfyconfig.toml`.

## What is modelled

**The e-paper frame engine** (`components/Epdiy-IDF`). A grayscale draw is fifteen frames. In each, a line
provider updates a 65536-entry table and queues one line for every drawn display line; a feeder takes the
lines, converts them through the table and puts out rows; a coordinator starts both and waits for both. The
screen width (16 pixels times `groups`) and height are parameters.

- `Lut` is the table: the in-place strided update loops, and what a table entry means after frame k.
  `TableStores` is the same work store by store, as the other processes can see it.
- `Shifts`, `DrawJob`, `LineAssembly` and `OneBit` are the line assembly with 4 bits and with 1 bit per pixel,
  with the in-place nibble and bit shifts and the buffer that is reused from row to row, also for areas that
  reach over the edges of the screen.
- `RowFormat` is the conversion of a line to a row of 2-bit actions and the half-word order of the bus.
- `Panel` is the panel one row behind the driver, with the skip shortcut; `PanelDriver` has the driver
  routines on two line buffers updated in place, each shown to do what `Panel` says.
- `FrameEngine` is the step system of the three processes: four binary semaphores, a queue of 32 lines, table
  stores byte by byte in the order of the code's loops, and single conversion steps. `Drawing` puts all layers
  together: which field of which row is applied to which display line in frame k, over every interleaving.
- `DataBus` is the layer below `Panel`: the driver's waiting loops access by access, the DMA engine reading a
  buffer byte by byte, the FIFO, and the interrupt. Every bus step is shown to be a step of the row pipeline
  or invisible to it. Hardware is abstracted to the transmitted buffer, the FIFO, the shift register and the
  latch.

**The integer rasterisers** (`components/Adafruit-GFX/Adafruit_GFX.cpp`, and their copies in
`components/Epdiy-IDF/epd_driver.c`).

- `Framebuffer` is the packed framebuffer and pixel drawing in place; `Lines` the Bresenham loop, once with
  virtual pixels and once on the framebuffer, against a closed form; `Circles` the midpoint circle against
  "nearest lattice point"; `Fills` and `RoundRects` the filled shapes; `Triangles` the scanline triangle,
  `TriangleArea` which pixels it covers, and `TriangleRange` which triangles fit its 16-bit variables.
- Drawing through virtual functions is modelled by the list of calls they get, in order.

**Text** (`Adafruit_GFX.cpp`). `TextLayout` has the printing and the measuring walk of a cursor, for the classic
font and for custom fonts, with the bitmaps as parameters.

**Strings, numbers, UTF-8 and light selection.** `SmallString` is the string class with its inline and heap
buffers: the two members of the union share storage, so the one not selected holds arbitrary bytes, and the
heap knows which blocks are live. `Bytes` has what the operations mean on byte sequences, `ReplaceRight` what
replacing from the right means. `Numbers` has the two digit generators, `Utf8` the decoder of the font code
against section 3 of RFC 3629, and `LightSelection` the in-place removal and the list of selected lights.
`Arith`, `Bits` and `Options` are shared helpers. Lemmas write their inductions out (`{:induction false}`).

The members named `...InNumbers` and a few beside them say what an operation does with the numbers of the code and
nothing but its arguments, so they also pin the functions that the other contracts use.

## Findings

- Beside a drawn area the line is padded with 15. In the modes for a white display such pixels are never driven,
  but in WHITE_ON_BLACK the value 15 is driven in every frame, so pixels outside the area are
  lightened in every drawn line (`Drawing.BesideTheArea` says exactly when).
- A grayscale area that starts at an odd column left of the screen is shown one column too far to the right, and
  one of odd width from an even column that reaches over the right edge loses the last column of the screen to the
  mask for its padding nibble. With 1 bit per pixel the mask takes pixels at the right edge in the same way, and
  the padding of a row of very many bytes is not masked at all. `DrawJob.Job.CleanDecides` and
  `DrawJob.Job.MonoCleanDecides` have the exact condition for the image to be shown in its place; areas on the
  screen always meet it (`DrawJob.Job.OnScreenIsClean`).
- Measuring a text wraps for characters without a bitmap and printing does not. So the measured box can miss
  what is printed; `TextLayout.EmptyGlyphEscapes` has a font and a text. `TextLayout.Style.WalksAgree` gives the
  exact condition under which both walks agree.
- The 16-bit circle loop is free of overflow up to radius 16384 and not beyond (`Circles.NoOverflow`).
- The 16-bit line loop is free of overflow exactly if the extent fits 16 bits, the line does not end in the
  column (or row) 32767, past which the loop counter wraps, and the last turn does not step over the edge
  sideways (`Lines.NoOverflow`).
- The 16-bit triangle loops are free of overflow exactly if the differences of the coordinates fit 16 bits, the
  lowest vertex is above row 32767, the middle one below row -32768 (or level with the lowest), and the scanline
  at the middle vertex is narrower than 32768 pixels: no other one is then wider (`TriangleRange.NoOverflow`,
  which has the flat case too). With the two upper vertices in row -32768 the end of the first loop wraps to
  32767, the loop is entered and divides by zero (`TriangleRange.FlatTopInFirstRow`, `TriangleRange.FirstRowFails`).
- Printing a number stops before a digit 201, whose character is a NUL. So all numbers are printed whole exactly
  in the bases up to 201 (`Numbers.BasesPrintedWhole`); in the others the number 201 prints nothing
  (`Numbers.PrintsNothing`).
- A text of exactly 10 characters is held on the heap if and only if the string had no buffer or was on the heap
  before. The inline buffer would hold it, as the comment at `components/Adafruit-GFX/WString.h:259` says, but the
  size test of `changeBuffer` is one tighter. A string that is inline already takes the 10 characters inline.
  (`SmallString.String.Copy` has the condition for every text, `SmallString.String.FromText` the case without a
  buffer and `SmallString.String.CopyToInline` the inline one.)
- Replacing by a longer text works from the right and searches again what it has already replaced. It gives the
  replacement from the left for every text if and only if no rest of the pattern starts the pattern again or
  starts the replacement (`ReplaceRight.SeparateDecides`; `ReplaceRight.Differing` has a text otherwise).
- The size of the new text is counted from the left. It is enough for every text if and only if no rest of the
  pattern starts the replacement (`ReplaceRight.UnlinkedDecides`); otherwise the loop from the right writes more
  than was counted for some text (`ReplaceRight.Outgrowing`).
- Removing the value 0 from an array that holds one never ends (`LightSelection.RemovingZerosNeverEnds`).

## Model

| member | source | states |
|---|---|---|
| Lut.Reset | components/Epdiy-IDF/epd_driver.c:308-321 | every entry holds the mode's action four times; an unknown mode changes nothing |
| Lut.ClearFirstPixel | components/Epdiy-IDF/epd_driver.c:331-333 | the loop over consecutive blocks clears exactly the first field of exactly the entries whose first nibble is the level |
| Lut.ClearSecondPixel | components/Epdiy-IDF/epd_driver.c:335-339 | the strided loop clears exactly the second field of exactly the entries whose second nibble is the level |
| Lut.ClearThirdPixel | components/Epdiy-IDF/epd_driver.c:340-344 | the strided loop clears exactly the third field of exactly the entries whose third nibble is the level |
| Lut.ClearFourthPixel | components/Epdiy-IDF/epd_driver.c:345-347 | the loop over one block clears exactly the fourth field of exactly the entries whose fourth nibble is the level |
| Lut.Update | components/Epdiy-IDF/epd_driver.c:323-348 | the four loops together leave the table with one grey level taken out |
| Lut.PrepareFrame | components/Epdiy-IDF/epd_driver.c:692-696 | the provider's table work at the start of a frame, with the reset in frame 0 only |
| Lut.UpdateClearsOneLevel | components/Epdiy-IDF/epd_driver.c:323-348 | an update takes away exactly the fields whose grey value is the level, and keeps the other fields of the same entry |
| Lut.UpdateInNumbers | components/Epdiy-IDF/epd_driver.c:323-348 | the level of frame k is 15 - k on a white display and k otherwise, and its fields and no others are emptied |
| Lut.TableMeaning | components/Epdiy-IDF/epd_driver.c:308-348 | after frames 0..k field n of an entry is empty exactly when nibble n of its index has stopped (at least 15-k, or at most k), else the mode's action, whatever the table held before the draw |
| Lut.FramesDriven | components/Epdiy-IDF/epd_driver.c:896-913 | on a white display a pixel of value v is driven in exactly the frames 0..14-v |
| TableStores.AllTargets | components/Epdiy-IDF/epd_driver.c:329-347 | the turns of each clearing loop write exactly the entries whose nibble is the level |
| TableStores.AllStores | components/Epdiy-IDF/epd_driver.c:692-696 | the single stores of a frame, reset and four loops, add up to the table of the frame |
| TableStores.StoreKeeps | components/Epdiy-IDF/epd_driver.c:308-348 | each store is the next one of the sequence on the table found, and the last one completes the frame's table |
| Shifts.NibbleShiftRight | components/Epdiy-IDF/epd_driver.c:350-357 | the slice is moved up four bits with 15 entering, and nothing outside the slice changes |
| Shifts.BitShiftRight | components/Epdiy-IDF/epd_driver.c:362-369 | the slice is moved up by the given bits with zeros entering, and nothing outside the slice changes |
| Shifts.NibbleMoved | components/Epdiy-IDF/epd_driver.c:350-357 | pixel q of the result is pixel q-1 of the buffer, and pixel 0 is white |
| Shifts.BitMoved | components/Epdiy-IDF/epd_driver.c:362-369 | bit q of the result is bit q-shift of the buffer, across byte borders, and the first bits are clear |
| Shifts.NibbleShiftIsArithmetic | components/Epdiy-IDF/epd_driver.c:350-357 | a buffer of n bytes, read as a little-endian number N, becomes 16 N + 15 modulo 256^n |
| Shifts.BitShiftIsArithmetic | components/Epdiy-IDF/epd_driver.c:362-369 | a buffer of n bytes, read as a little-endian number N, becomes N times 2^shift modulo 256^n |
| DrawJob.Job.LinePixels | components/Epdiy-IDF/epd_driver.c:714-751 | the line of a display line has, at every pixel that shows the image, its nibble there, and 15 beside it |
| DrawJob.Job.LineFromPixels | components/Epdiy-IDF/epd_driver.c:714-751 | conversely a buffer with those nibbles is that line, byte for byte |
| DrawJob.Job.CleanDecides | components/Epdiy-IDF/epd_driver.c:698-744 | whatever the data, every pixel of the area has its own image nibble and every other one 15, if and only if the area starts at an even column when it starts left of the screen, and the padding mask takes no pixel at the right edge |
| DrawJob.Job.MonoCleanDecides | components/Epdiy-IDF/epd_driver.c:808-867 | the same with 1 bit per pixel, where the padding must also be masked if it is on the screen |
| DrawJob.Job.OnScreenIsClean | components/Epdiy-IDF/epd_driver.c:734-744 | areas on the screen meet the condition, for both depths: the guards of the masks hold for them |
| DrawJob.Job.CleanInNumbers | components/Epdiy-IDF/epd_driver.c:698-744 | the condition in numbers for 4 bits per pixel, with the guard of the mask as the code has it |
| DrawJob.Job.MonoCleanInNumbers | components/Epdiy-IDF/epd_driver.c:848-856 | and for 1 bit per pixel |
| DrawJob.Job.ImageInNumbers | components/Epdiy-IDF/epd_driver.c:698-731 | the image nibble of a pixel: rows are padded to whole bytes, two pixels to a byte |
| DrawJob.Job.MonoImageInNumbers | components/Epdiy-IDF/epd_driver.c:808-845 | and the image bit, eight pixels to a byte |
| LineAssembly.ProvideLine | components/Epdiy-IDF/epd_driver.c:715-751 | for odd widths, odd x, rows cut off at either edge and full-width rows alike, the assembled line is the one to be shown, and the buffer is fit for the next row |
| LineAssembly.ProvideLines | components/Epdiy-IDF/epd_driver.c:682-755 | over a frame the queued lines are exactly those of the drawn display lines, in order, for every area with a column on the screen and whatever its rows: rows above the screen are skipped in the data |
| RowFormat.ReorderIsInvolution | components/Epdiy-IDF/epd_driver.c:183-188 | exchanging the half-words of every word twice gives the buffer back |
| RowFormat.ReorderLineBuffer | components/Epdiy-IDF/epd_driver.c:183-188 | the in-place loop gives the reordered buffer |
| RowFormat.ReorderedPixels | components/Epdiy-IDF/epd_driver.c:180-188 | the panel sees the pixels of a reordered buffer in their natural order |
| RowFormat.ReorderedBytes | components/Epdiy-IDF/epd_driver.c:183-188 | the two halves of each word change places, byte for byte |
| RowFormat.PanelFieldsInNumbers | components/Epdiy-IDF/epd_driver.c:183-188 | where in a word of the bus the panel finds each of its sixteen pixels |
| RowFormat.CalcInput4bpp | components/Epdiy-IDF/epd_driver.c:190-209 | the conversion loop equals mapping the table over the words and then reordering |
| RowFormat.InputPixels | components/Epdiy-IDF/epd_driver.c:190-209 | pixel p of the panel gets the table field for the grey value of pixel p of the line |
| RowFormat.InputBytes | components/Epdiy-IDF/epd_driver.c:199-208 | each byte of a word of the row is the table entry of one 16-bit word of the line, the third and fourth first |
| OneBit.EntryFields | components/Epdiy-IDF/epd_driver.c:211-279 | an entry of the 1 bit tables has the mode's action for each set bit and nothing for the others |
| OneBit.CalcInput1bpp | components/Epdiy-IDF/epd_driver.c:281-306 | the conversion loop equals mapping the 1 bit table over the bytes and then reordering; an unknown mode leaves the row alone |
| OneBit.SpreadPixels | components/Epdiy-IDF/epd_driver.c:281-306 | pixel p of the panel gets the mode's action exactly if bit p of the line is set, so the layout is that of the 4 bit path |
| OneBit.ProvideLine | components/Epdiy-IDF/epd_driver.c:828-871 | bit p of the assembled line is the image bit where the image is shown and 0 beside it, for every width and x, cut off at the edges or not, and the buffer is fit for the next row |
| Panel.State.WriteKeeps | components/Epdiy-IDF/epd_driver.c:96-102 | writing a row applies the one before and keeps the frame invariant |
| Panel.State.SkipKeeps | components/Epdiy-IDF/epd_driver.c:104-113 | skipping a row, by either branch and with the counter wrapping, acts as a zero row and keeps the frame invariant |
| Panel.State.FlushShows | components/Epdiy-IDF/epd_driver.c:150-153 | the extra write at the end of a frame applies the last row |
| Panel.State.NoFlushShows | components/Epdiy-IDF/epd_driver.c:790-795 | leaving the extra write out loses nothing if a row was skipped last |
| Panel.FrameShowsMeantRows | components/Epdiy-IDF/epd_driver.c:774-795 | every frame applies to display line i, one pulse later, exactly the row meant for it, zero rows for skipped lines |
| Panel.EveryFrameShown | components/Epdiy-IDF/epd_driver.c:96-113 | the same over any sequence of frames: what was drawn before does not leak into frame k |
| PanelDriver.Driver.constructor | components/Epdiy-IDF/epd_driver.c:923-925 | the driver starts sound whatever the panel holds |
| PanelDriver.Driver.SwitchBuffer | components/Epdiy-IDF/ed097oc4.c:173 | the one of the two buffers that was not handed out is handed out, both keep their contents, and every frame invariant holds on: no row shown or loaded is touched |
| PanelDriver.Driver.OutputRow | components/Epdiy-IDF/ed097oc4.c:146-162 | the loaded row is latched and applied, the current buffer is loaded and the other one handed out |
| PanelDriver.Driver.WriteRow | components/Epdiy-IDF/epd_driver.c:96-102 | the pipeline operation for a written row, on the arrays |
| PanelDriver.Driver.SkipRow | components/Epdiy-IDF/epd_driver.c:104-113 | the pipeline operation for a skipped row, on the arrays |
| PanelDriver.Driver.FeedLine | components/Epdiy-IDF/epd_driver.c:774-790 | one display line of a 4 bit frame: a skip, or the next queued line converted and written |
| PanelDriver.Driver.FeedFrame | components/Epdiy-IDF/epd_driver.c:757-799 | a whole frame of the feeder does exactly the frame's operations, with the final write only if no row was skipped last |
| PanelDriver.Driver.DrawMonoLine | components/Epdiy-IDF/epd_driver.c:817-872 | one display line of a 1 bit frame, the data pointer moving over rows that are not drawn |
| PanelDriver.Driver.DrawFrame1Bit | components/Epdiy-IDF/epd_driver.c:801-877 | a whole 1 bit frame writes, for each drawn line, a row with the action at exactly the set pixels, and skips the others |
| PanelDriver.MakePushRow | components/Epdiy-IDF/epd_driver.c:117-125 | the row of a push has the colour's action in exactly the fields x..x+width-1 |
| PanelDriver.Driver.PushPixels | components/Epdiy-IDF/epd_driver.c:115-153 | after a push every line of the area has been given that row and every other line nothing, the last line included |
| FrameEngine.NextKeeps | components/Epdiy-IDF/epd_driver.c:682-799 | every step of the coordinator, the provider or the feeder keeps the engine's invariant |
| FrameEngine.TableNotSharedWhileWritten | components/Epdiy-IDF/epd_driver.c:692-696 | while the provider writes the table the feeder converts nothing, and what it converts with is this frame's table |
| FrameEngine.QueueEmptyWhenDone | components/Epdiy-IDF/epd_driver.c:753-798 | when both tasks have reported the frame done every queued line has been taken |
| FrameEngine.Progress | components/Epdiy-IDF/epd_driver.c:889-921 | no reachable state deadlocks: until the draw is finished some process can move |
| FrameEngine.EveryStepWorks | components/Epdiy-IDF/epd_driver.c:682-799 | every step of every process brings the draw nearer to its end |
| FrameEngine.RunKeepsInvariant | components/Epdiy-IDF/epd_driver.c:682-921 | the invariant holds in every state of every interleaving |
| FrameEngine.RunIsSafe | components/Epdiy-IDF/epd_driver.c:682-799 | over every run the table is not written during a conversion, rows are converted with this frame's table, the queue never overflows and is empty when both are done |
| FrameEngine.RunsAreBounded | components/Epdiy-IDF/epd_driver.c:889-921 | no run is infinite |
| FrameEngine.StuckRunHasDrawn | components/Epdiy-IDF/epd_driver.c:889-921 | a run that cannot go on has drawn fifteen frames, frame k converting each drawn line with the table updated through frame k and skipping the others, and is idle again |
| Drawing.DrawDrivesMeantFields | components/Epdiy-IDF/epd_driver.c:682-921 | all layers together: in frame k of any run display line i gets, at pixel p, the table field of the grey value shown there, and nothing on lines not drawn |
| Drawing.WhiteDisplayDraw | components/Epdiy-IDF/epd_driver.c:889-921 | a draw of fifteen frames on a white display drives a pixel of value v in exactly the frames 0..14-v and never a pixel beside the image; for a clean area that is the image in its place |
| Drawing.BesideTheArea | components/Epdiy-IDF/epd_driver.c:714-751 | pixels beside the image are driven exactly in WHITE_ON_BLACK, on drawn lines |
| Drawing.MonoFrameDrivesSetPixels | components/Epdiy-IDF/epd_driver.c:801-877 | a 1 bit frame drives exactly the set pixels of the drawn lines with the mode's action and nothing else on the screen, whatever was shown before |
| Drawing.DrawInNumbers | components/Epdiy-IDF/epd_driver.c:682-921 | in frame k of the fifteen of any finished run a pixel whose image value is v is driven exactly if its line is drawn and k + v < 15, or k < v on a black display, darkened for BLACK_ON_WHITE and else lightened |
| Drawing.FramesCounted | components/Epdiy-IDF/epd_driver.c:889-921 | so it is driven in 15 - v frames altogether, or in v on a black display, and in none on other lines |
| Drawing.MonoFrameInNumbers | components/Epdiy-IDF/epd_driver.c:801-877 | a 1 bit frame darkens or lightens exactly the pixels whose image bit is set, on drawn lines |
| DataBus.DriverKeeps | components/Epdiy-IDF/i2s_data_bus.c:80-110 | every access of the driver keeps the bus invariant |
| DataBus.HardwareKeeps | components/Epdiy-IDF/i2s_data_bus.c:66-74 | every step of the DMA, the FIFO and the interrupt keeps the bus invariant |
| DataBus.RunKeepsInvariant | components/Epdiy-IDF/i2s_data_bus.c:50-110 | the bus invariant holds in every state of every interleaving |
| DataBus.BuffersNeverCollide | components/Epdiy-IDF/i2s_data_bus.c:50-110 | in every interleaving the buffer the driver may fill is never the one being read, and what is latched is the whole row as it stood when its output was started |
| DataBus.BusRefinesPipeline | components/Epdiy-IDF/ed097oc4.c:146-176 | every bus step is a row pipeline operation or invisible: latching takes exactly the row loaded before |
| DataBus.WaitingEnds | components/Epdiy-IDF/i2s_data_bus.c:80-91 | while the driver waits for a busy bus, the hardware can move |
| DataBus.HardwareWorks | components/Epdiy-IDF/i2s_data_bus.c:66-83 | every hardware step brings the bus nearer to idle |
| DataBus.QuietWhenDone | components/Epdiy-IDF/i2s_data_bus.c:80-83 | no hardware work is left if and only if the bus is no longer busy |
| DataBus.QuietBusLetsThrough | components/Epdiy-IDF/i2s_data_bus.c:85-91 | on a quiet bus each access of a waiting driver brings it nearer to the end of its loop, and the bus stays quiet |
| DataBus.TwoStepsEndWaiting | components/Epdiy-IDF/i2s_data_bus.c:85-91 | from the head of a waiting loop on a quiet bus the driver is past it after two accesses |
| DataBus.WaitingAddsNoWork | components/Epdiy-IDF/i2s_data_bus.c:66-91 | while the driver waits nothing raises the hardware work, so the bus does become quiet |
| DataBus.BusBecomesQuiet | components/Epdiy-IDF/i2s_data_bus.c:66-83 | while the driver is ready the hardware can finish whatever it is doing, unseen by the row pipeline |
| DataBus.RowCanBeOutput | components/Epdiy-IDF/ed097oc4.c:146-162 | from any ready state with a quiet bus there is a run that puts out the loaded row, starts the next one and hands out the other buffer |
| DataBus.OthersCanBeMade | components/Epdiy-IDF/ed097oc4.c:146-176 | and a step for each other operation of the pipeline: a pulse, a switch, a byte stored |
| Framebuffer.DrawPixel | components/Epdiy-IDF/epd_driver.c:390-403 | the pixel's nibble gets the colour's upper nibble, off-screen pixels change nothing |
| Framebuffer.DrawHLine | components/Epdiy-IDF/epd_driver.c:374-380 | paints exactly the points of the row |
| Framebuffer.DrawVLine | components/Epdiy-IDF/epd_driver.c:382-388 | paints exactly the points of the column |
| Framebuffer.PaintedShade | components/Epdiy-IDF/epd_driver.c:390-403 | after painting a list of points, exactly the on-screen points of the list have the colour and every other pixel its old shade, also the one in the same byte |
| Framebuffer.PaintedInNumbers | components/Epdiy-IDF/epd_driver.c:390-403 | the same in bytes: y * (width / 2) + x / 2, with odd columns in the upper nibble |
| Framebuffer.RowPoints | components/Epdiy-IDF/epd_driver.c:374-380 | the points of a row |
| Framebuffer.ColumnPoints | components/Epdiy-IDF/epd_driver.c:382-388 | the points of a column |
| Framebuffer.SamePointsSamePicture | components/Epdiy-IDF/epd_driver.c:374-403 | only the set of painted points decides the picture |
| Lines.ErrStep | components/Adafruit-GFX/Adafruit_GFX.cpp:145-168 | the error counter is dx/2 - i*dy + j*dx with j the nearest row, stays in [0, dx), and never leaves [-dy, dx) in between |
| Lines.TracedIsNearest | components/Adafruit-GFX/Adafruit_GFX.cpp:157-168 | after i turns the loop stands on the row nearest to the true line |
| Lines.WriteLine | components/Adafruit-GFX/Adafruit_GFX.cpp:128-169 | the pixels drawn are the closed-form line, in order |
| Lines.WriteLineInPlace | components/Epdiy-IDF/epd_driver.c:501-539 | the framebuffer ends with exactly the closed-form line painted |
| Lines.DrawLine | components/Epdiy-IDF/epd_driver.c:541-555 | vertical and horizontal shortcuts leave the framebuffer as the general loop would |
| Lines.VerticalLine | components/Epdiy-IDF/epd_driver.c:544-547 | a vertical line, in either direction, is the column of its points |
| Lines.HorizontalLine | components/Epdiy-IDF/epd_driver.c:548-551 | a horizontal line, in either direction, is the row of its points |
| Lines.LineEnds | components/Adafruit-GFX/Adafruit_GFX.cpp:128-169 | a line has max(dx, dy) + 1 pixels and its first and last are the given endpoints |
| Lines.LineIsConnected | components/Adafruit-GFX/Adafruit_GFX.cpp:157-168 | consecutive pixels are distinct 8-neighbours |
| Lines.LineIsStraight | components/Adafruit-GFX/Adafruit_GFX.cpp:157-168 | every pixel is within half a pixel of the true line through the endpoints |
| Lines.LineInNumbers | components/Adafruit-GFX/Adafruit_GFX.cpp:128-169 | exactly which pixels a line has: in each column of a flat line the row nearest to it, and of two equally near ones the one not yet passed; steep lines by exchanging coordinates |
| Lines.NoOverflow | components/Adafruit-GFX/Adafruit_GFX.cpp:128-168 | between any two points of 16 bits the 16-bit variables hold all values if and only if the extent fits, the line ends before 32767 along its major axis, and the last turn does not step out of 16 bits along the minor one |
| Circles.CounterIsDecision | components/Adafruit-GFX/Adafruit_GFX.cpp:359-379 | the incremental counter is (x+1)^2 + y^2 - y - r^2 |
| Circles.OctantIsNearest | components/Adafruit-GFX/Adafruit_GFX.cpp:371-379 | up to the diagonal the y of each turn is the integer nearest to the true circle; the last turn may go one beyond |
| Circles.NearestIsReached | components/Adafruit-GFX/Adafruit_GFX.cpp:371-379 | conversely every nearest point up to the diagonal is reached |
| Circles.DrawCircle | components/Adafruit-GFX/Adafruit_GFX.cpp:354-391 | the loop ends and draws the outline, four points and eight mirror images a turn |
| Circles.DrawCircleInPlace | components/Epdiy-IDF/epd_driver.c:405-437 | the framebuffer ends with exactly the outline painted |
| Circles.OutlinePoints | components/Adafruit-GFX/Adafruit_GFX.cpp:381-388 | the outline has exactly the eight mirror images of the octant points |
| Circles.OutlineIsRound | components/Epdiy-IDF/epd_driver.c:405-437 | every outline pixel has abs(dx^2 + dy^2 - r^2) at most max(dx, dy) |
| Circles.OutlineIsComplete | components/Epdiy-IDF/epd_driver.c:405-437 | every column and row has its nearest pixel in the outline |
| Circles.OutlineInNumbers | components/Epdiy-IDF/epd_driver.c:405-437 | the outline is exactly the pixels with k^2 + m^2 - m < r^2 <= k^2 + m^2 + m, for m the larger and k the smaller distance from the centre |
| Circles.CounterRange | components/Adafruit-GFX/Adafruit_GFX.cpp:371-379 | the counter stays linear in the radius and the loop ends with x at most y + 1 |
| Circles.NoOverflow | components/Adafruit-GFX/Adafruit_GFX.cpp:354-391 | the 16-bit variables hold all values if and only if -16384 < r <= 16384 |
| Fills.FillCircleHelper | components/Adafruit-GFX/Adafruit_GFX.cpp:468-508 | each of the r columns on the asked sides gets exactly one call, reaching from outline to outline |
| Fills.FillCircle | components/Adafruit-GFX/Adafruit_GFX.cpp:449-455 | nothing is drawn twice: each column x-r..x+r gets exactly one call and no other column any; each call ends on the outline, and together they paint exactly the pixels with k^2 + m^2 - m < r^2; a negative radius leaves one call |
| Fills.InnerColumn | components/Adafruit-GFX/Adafruit_GFX.cpp:491-496 | the column under an octant point reaches just as far as the outline does there |
| Fills.OuterColumn | components/Epdiy-IDF/epd_driver.c:475-481 | a column painted when y changes reaches just as far as the outline does there |
| RoundRects.FillRoundRect | components/Adafruit-GFX/Adafruit_GFX.cpp:571-583 | if and only if the clamped radius is sensible, as it is for all non-negative sizes, each column of the rectangle gets exactly one call and no other any; for non-negative sizes the corners have the radius asked for if it fits twice into both, and else half of the smaller size, and exactly the pixels of that round rectangle are painted |
| RoundRects.RoundedOffStaysInside | components/Adafruit-GFX/Adafruit_GFX.cpp:571-583 | what any call paints is inside the rows of the rectangle if and only if it has a row, for every radius, even for the calls of height zero that a radius of half the height leads to |
| Triangles.FillTriangle | components/Adafruit-GFX/Adafruit_GFX.cpp:616-698 | in exact arithmetic the incremental crossings give the truncating interpolation on every scanline, for vertices in any order and on any rows, and no divisor is zero |
| Triangles.CrossingIsOnEdge | components/Adafruit-GFX/Adafruit_GFX.cpp:666-696 | a crossing is less than a pixel from its edge, between the edge's ends, and exact at both ends |
| Triangles.EachRowOnce | components/Epdiy-IDF/epd_driver.c:564-643 | one call for each row from the topmost to the lowest vertex, in order |
| Triangles.VerticesAreCovered | components/Epdiy-IDF/epd_driver.c:564-643 | each vertex is covered by a scanline |
| Triangles.SpansStayInside | components/Epdiy-IDF/epd_driver.c:564-643 | every scanline stays in the bounding box of the vertices |
| Triangles.OrderDoesNotMatter | components/Adafruit-GFX/Adafruit_GFX.cpp:621-633 | the picture is the same for every order of the vertices, also with equal rows |
| TriangleArea.ScanlineEnds | components/Adafruit-GFX/Adafruit_GFX.cpp:666-696 | each scanline goes from where the long edge crosses its row to where the short one does, both rounded towards the upper end of the edge |
| TriangleArea.InsideIsCovered | components/Adafruit-GFX/Adafruit_GFX.cpp:616-698 | every lattice point of the closed triangle, by the cross products of its vertices, is covered by the scanline of its row, for vertices in any order |
| TriangleArea.CoveredIsNear | components/Adafruit-GFX/Adafruit_GFX.cpp:616-698 | and every covered pixel is less than a pixel away from the triangle in its row |
| TriangleRange.NoOverflow | components/Adafruit-GFX/Adafruit_GFX.cpp:616-698 | for any three vertices of 16 bits, flat triangles included, all 16-bit and 32-bit variables hold their values, the end of the first loop too, if and only if the differences fit, the middle vertex is not in row -32768 above the lowest, the lowest is not in row 32767, and the scanline at the middle vertex fits |
| TriangleRange.MiddleRowDecides | components/Adafruit-GFX/Adafruit_GFX.cpp:668-696 | no scanline is wider than a limit unless the one at the middle vertex is, truncation included, if the limit is not below the heights of the two parts |
| TriangleRange.SmallTrianglesFit | components/Adafruit-GFX/Adafruit_GFX.cpp:651-697 | nothing overflows if the vertices span fewer than 32767 pixels each way and stay off the first and the last row |
| TriangleRange.FlatTopInFirstRow | components/Adafruit-GFX/Adafruit_GFX.cpp:661-668 | the first loop divides by zero in 16 bits exactly if the two upper vertices are in row -32768 |
| TriangleRange.FirstRowFails | components/Adafruit-GFX/Adafruit_GFX.cpp:661-668 | vertices whose differences all fit and for which the first loop divides by zero |
| TextLayout.Printer.DrawChar | components/Adafruit-GFX/Adafruit_GFX.cpp:1131-1231 | the calls made are those of the character at its place and size, in both fonts and colours; wholly invisible classic cells are not drawn |
| TextLayout.Style.ClassicBlock | components/Adafruit-GFX/Adafruit_GFX.cpp:1137-1163 | dot (i, j) of a visible classic character is painted in the text colour exactly if its bit is set, and in the background colour exactly if it is not set and the background is opaque; codes from 176 on are those of the next code in the old character set |
| TextLayout.Style.ClassicOnly | components/Adafruit-GFX/Adafruit_GFX.cpp:1137-1170 | nothing else is painted, but for the sixth column on an opaque background, and nothing for an invisible cell |
| TextLayout.Style.CustomBlock | components/Adafruit-GFX/Adafruit_GFX.cpp:1213-1228 | dot (i, j) of a custom glyph is painted exactly if its bit is set |
| TextLayout.Style.CustomOnly | components/Adafruit-GFX/Adafruit_GFX.cpp:1213-1228 | and nothing else is |
| TextLayout.Printer.Write | components/Adafruit-GFX/Adafruit_GFX.cpp:1239-1286 | the cursor moves and the character is painted as the printing walk says |
| TextLayout.Printer.CharBounds | components/Adafruit-GFX/Adafruit_GFX.cpp:1367-1428 | the position moves and the box grows as the measuring walk says |
| TextLayout.Printer.GetTextBounds | components/Adafruit-GFX/Adafruit_GFX.cpp:1443-1465 | the returned rectangle is the box of the whole measuring walk, or empty |
| TextLayout.Style.ClassicStep | components/Adafruit-GFX/Adafruit_GFX.cpp:1246-1252 | for a classic character both walks go on by 6 dots, after a new line of 8 if those would pass the right edge, and its cell is 6 by 8 |
| TextLayout.Style.CustomStep | components/Adafruit-GFX/Adafruit_GFX.cpp:1267-1281 | the same with the numbers of the glyph; only printing leaves characters without a bitmap where they are |
| TextLayout.Style.OtherStep | components/Adafruit-GFX/Adafruit_GFX.cpp:1242-1264 | a line feed starts a new line, and a carriage return or a character the font does not have does nothing |
| TextLayout.Style.OneLineBounds | components/Adafruit-GFX/Adafruit_GFX.cpp:1443-1465 | n classic characters that fit a line of the screen are measured as 6 n by 8 dots, and printing ends behind them |
| TextLayout.Style.NothingMeasured | components/Adafruit-GFX/Adafruit_GFX.cpp:1443-1465 | a text with nothing to show is measured as an empty rectangle at the given place |
| TextLayout.Style.WalksAgree | components/Adafruit-GFX/Adafruit_GFX.cpp:1268-1286 | both walks visit the same positions if and only if no character without a bitmap makes measuring wrap |
| TextLayout.Style.WalksAgreeUsually | components/Adafruit-GFX/Adafruit_GFX.cpp:1239-1286 | so they agree for every text in the classic font, without wrapping, and without empty glyphs |
| TextLayout.Style.CharInkStays | components/Adafruit-GFX/Adafruit_GFX.cpp:1131-1231 | every dot of a character lies in the cell that measuring counts for it |
| TextLayout.Style.TextStaysInBounds | components/Adafruit-GFX/Adafruit_GFX.cpp:1443-1465 | whenever the walks agree, everything printing paints lies in the measured rectangle |
| TextLayout.Style.BoxIsUnion | components/Adafruit-GFX/Adafruit_GFX.cpp:1367-1428 | each side of the measured box is touched by some character's cell or is the starting value |
| TextLayout.EmptyGlyphEscapes | components/Adafruit-GFX/Adafruit_GFX.cpp:1385-1388 | a font and a text for which the walks differ and a dot lies outside the measured rectangle |
| SmallString.String.SetSSO | components/Adafruit-GFX/WString.h:275 | after the tag changes nothing is known about the newly selected member of the union |
| SmallString.String.Invalidate | components/Adafruit-GFX/WString.cpp:141-145 | the block, if any, is freed once and the string has no buffer |
| SmallString.String.ChangeBuffer | components/Adafruit-GFX/WString.cpp:158-205 | success gives a buffer of the size with the old text, inline exactly for less than 10 characters and else on the heap; failure changes nothing; no block is lost or freed twice |
| SmallString.String.Reserve | components/Adafruit-GFX/WString.cpp:147-156 | the text never changes, a request that fits the present buffer or has less than 10 characters never fails, a failure leaves everything as it was, and whether the buffer is inline afterwards is decided by the request and the string before |
| SmallString.String.Copy | components/Adafruit-GFX/WString.cpp:210-218 | the string is the given text, inline or on the heap as the reservation decides, or has no buffer if memory ran out, which cannot happen when there is room |
| SmallString.String.FromText | components/Adafruit-GFX/WString.cpp:35-39 | a new string from a C string is inline exactly for less than 10 characters, so a text of 10 goes to the heap |
| SmallString.String.CopyToInline | components/Adafruit-GFX/WString.cpp:287-294 | an inline string takes any text of up to 10 characters inline and never fails |
| SmallString.String.Assign | components/Adafruit-GFX/WString.cpp:261-271 | assignment, also to itself, copies the text and leaves the other string alone; it succeeds for a string without a buffer and whenever there is room |
| SmallString.String.Move | components/Adafruit-GFX/WString.cpp:231-258 | this string has the other's text, the other has no buffer, and every block still has exactly one owner |
| SmallString.String.Concat | components/Adafruit-GFX/WString.cpp:308-326 | appends the other text, also when it is this string and the buffer moves; a failure changes no text, a string without a buffer is never appended, and an empty text or one there is room for always is |
| SmallString.String.Append | components/Adafruit-GFX/WString.cpp:328-344 | the copying at the end of concat gives the concatenation, terminated |
| SmallString.String.Substring | components/Adafruit-GFX/WString.cpp:706-722 | a new string with the part between two positions in either order, up to a NUL, always there if the part has at most 10 characters; the borrowed buffer is restored |
| SmallString.String.Remove | components/Adafruit-GFX/WString.cpp:790-805 | exactly the given range is gone, clamped to the text: characters before it stay, those behind it move down by its length |
| SmallString.String.Trim | components/Adafruit-GFX/WString.cpp:823-837 | leading and trailing spaces are gone, also for a text of only spaces |
| SmallString.String.Replace | components/Adafruit-GFX/WString.cpp:737-781 | every occurrence is replaced, a longer replacement from the right and any other from the left, and the length field ends right; a replacement no longer than the pattern is made in place and never fails, a longer one never fails when there is room for the size counted and otherwise changes nothing |
| SmallString.String.ReplaceShorter | components/Adafruit-GFX/WString.cpp:748-759 | the compacting loop: the write position never passes the read position, and the result is the replacement from the left |
| SmallString.String.ReplaceLonger | components/Adafruit-GFX/WString.cpp:760-780 | the size counted from the left is enough for what the loop from the right writes, also if the pattern overlaps itself |
| SmallString.String.ReplaceFromRight | components/Adafruit-GFX/WString.cpp:770-779 | the loop from the right, whatever the pattern, replaces the last occurrence again and again in the text that results |
| SmallString.String.LastIndexOf | components/Adafruit-GFX/WString.cpp:690-704 | searching on from the left finds the last occurrence up to a position, clamped to the text; an empty pattern is never found |
| ReplaceRight.RightIsLeft | components/Adafruit-GFX/WString.cpp:770-779 | with a pattern none of whose rests starts it again or starts the replacement, replacing from the right is replacing from the left |
| ReplaceRight.SeparateDecides | components/Adafruit-GFX/WString.cpp:760-780 | exactly then it is so for every text |
| ReplaceRight.Differing | components/Adafruit-GFX/WString.cpp:760-780 | otherwise there is a text, without a NUL if the pattern has none, that gets a different result |
| ReplaceRight.UnlinkedDecides | components/Adafruit-GFX/WString.cpp:760-780 | the size counted from the left is enough for every text if and only if no rest of the pattern starts the replacement |
| ReplaceRight.Outgrowing | components/Adafruit-GFX/WString.cpp:760-780 | otherwise there is a text, without a NUL if the pattern has none, whose result is longer than counted |
| ReplaceRight.OutcomeFromLeft | components/Adafruit-GFX/WString.cpp:737-781 | a replacement that is no longer than its pattern, or separate from it, is made as from the left |
| Bytes.FindIsFirst | components/Adafruit-GFX/WString.cpp:744-759 | the occurrence taken is the first one |
| Bytes.ReplacedInPieces | components/Adafruit-GFX/WString.cpp:744-759 | replacing without searching: the text is cut at the occurrences, the first one each time, and the pieces are put together again with the replacement |
| Bytes.BetweenInNumbers | components/Adafruit-GFX/WString.cpp:706-722 | what a substring is: positions in either order, clamped to the text, up to the first NUL |
| Bytes.TrimmedIs | components/Adafruit-GFX/WString.cpp:823-837 | what trimming leaves starts and ends with no space and had only spaces around it |
| Bytes.TrimmedInNumbers | components/Adafruit-GFX/WString.cpp:827-830 | the six white-space characters of C are taken off both ends, as many as there are |
| Numbers.Reverse | components/Adafruit-GFX/srdlib_noniso.c:32-42 | the slice is reversed in place and nothing else changes |
| Numbers.Ultoa | components/Adafruit-GFX/srdlib_noniso.c:69-88 | the buffer holds the digits of the number, most significant first, terminated; the empty text for a base outside 2..16 |
| Numbers.Ltoa | components/Adafruit-GFX/srdlib_noniso.c:44-67 | the same with a sign for every long above the smallest |
| Numbers.PrintNumber | components/Adafruit-GFX/Print.cpp:256-276 | what is written is the digits up to the first NUL, in every base from 0 to 255, and the 33-byte buffer is never underrun |
| Numbers.PrintedWhole | components/Adafruit-GFX/Print.cpp:269-275 | digits are written whole if and only if none of them is 201 |
| Numbers.BasesPrintedWhole | components/Adafruit-GFX/Print.cpp:256-276 | every number is written whole if and only if the base is at most 201 |
| Numbers.PrintsNothing | components/Adafruit-GFX/Print.h:60-65 | in any base above 201 the number 201 writes nothing |
| Numbers.AtMost32Digits | components/Adafruit-GFX/Print.cpp:258 | no 32-bit number has more than 32 digits in any base |
| Numbers.DigitsHaveValue | components/Adafruit-GFX/srdlib_noniso.c:78-83 | the digits stand for the number |
| Numbers.DigitsAreUnique | components/Adafruit-GFX/srdlib_noniso.c:78-83 | no other numeral without leading zeros stands for it |
| Numbers.NoLeadingZero | components/Adafruit-GFX/srdlib_noniso.c:78-83 | the first digit is zero only for zero |
| Numbers.DigitAt | components/Adafruit-GFX/srdlib_noniso.c:78-83 | the digit at place i from the right is that of n / base^i |
| Numbers.DigitCount | components/Adafruit-GFX/srdlib_noniso.c:78-83 | there are just as many digits as it takes |
| Numbers.TextInNumbers | components/Adafruit-GFX/srdlib_noniso.c:69-88 | character i of the text, from the right, is "0123456789abcdef"[n / base^i % base] |
| Numbers.SignInNumbers | components/Adafruit-GFX/srdlib_noniso.c:60-62 | a negative number has a minus sign in front of the text of its absolute value |
| Numbers.PrintedInNumbers | components/Adafruit-GFX/Print.cpp:269-273 | the same for the printed text, with capitals |
| Numbers.UnsignedRoundTrip | components/Adafruit-GFX/srdlib_noniso.c:69-88 | parsing the text of an unsigned number gives it back, in every base 2..16 |
| Numbers.SignedRoundTrip | components/Adafruit-GFX/srdlib_noniso.c:44-67 | parsing the text of a signed number gives it back, in every base 2..16 |
| Numbers.SameDigits | components/Adafruit-GFX/Print.cpp:269-273 | both generators give the same text up to the case of the letters |
| Utf8.Utf8Len | components/Epdiy-IDF/font.c:40-52 | the search ends with the only row of the mask table that matches, for every byte below 0xF8, also a continuation byte |
| Utf8.SearchEnds | components/Epdiy-IDF/font.c:40-52 | a row of the table matches a byte if and only if it is below 0xF8, and then only one does |
| Utf8.NextCp | components/Epdiy-IDF/font.c:54-70 | the bits of the announced bytes are joined and exactly these bytes are passed; a zero byte is not passed |
| Utf8.DecodedInNumbers | components/Epdiy-IDF/font.c:58-69 | which bits of one to four bytes, well formed or not, make the code point |
| Utf8.DecodeEncode | components/Epdiy-IDF/font.c:54-70 | decoding undoes the encoding of RFC 3629, section 3, for every non-zero scalar value |
| Utf8.Read | components/Epdiy-IDF/font.c:54-70 | one call on an encoded text returns its next code point and advances by that code point's length |
| Utf8.ReadAll | components/Epdiy-IDF/font.c:54-70 | reading an encoded text up to its terminator returns exactly the code points |
| LightSelection.ArrayShift | main/eink.cpp:544-559 | removal ends, keeps the other values in order, and fills up with zeros, unless zeros are to be removed and there are some |
| LightSelection.WithoutInNumbers | main/eink.cpp:544-559 | what a removal keeps is exactly the elements other than the value, at rising places |
| LightSelection.ShiftRemovesOne | main/eink.cpp:548-556 | closing one gap leaves one occurrence less, which is why the outer loop ends |
| LightSelection.RemovingZerosNeverEnds | main/eink.cpp:544-559 | a removal of the value 0 that has a zero ahead of it never ends, however many turns it makes |
| LightSelection.Selection.SelectLight | main/eink.cpp:561-581 | a tap adds the light at the end or takes it out, and the buttons stay marked exactly for the lights in the list |
| LightSelection.RunOfTaps | main/eink.cpp:561-581 | after any run of taps the list has no duplicates and exactly the lights tapped an odd number of times have changed sides |

## Left out

- LineAssembly.ProvideLines: areas with no column on the screen, for which the byte count wraps.
- OneBit.ProvideLine: areas that start left of the screen but not at a byte, for which the shift is negative.
- PanelDriver.Driver.PushPixels: areas partly off the screen; pulse lengths and delays: every gate pulse only counts as applying the latched row.
- DataBus.BusRefinesPipeline: the eight extra bytes the DMA descriptor sends, the start pulse line, and the power sequence at the start and end of a frame; the bus is idle when the run starts.
- FrameEngine.NextKeeps: the order in which memset stores its bytes, which is taken to be upwards.
- FrameEngine.StuckRunHasDrawn: the minimum frame time, and task start-up and deletion; binary semaphores and the queue behave as FreeRTOS documents them.
- Drawing.MonoFrameDrivesSetPixels: one frame; 1 bit draws are frames that the caller's task puts out one by one.
- Lines.WriteLine: what happens when 16 bits overflow; Lines.NoOverflow says when they do not. Coordinates are unbounded integers.
- Fills.FillCircle: the 16-bit height 2r+1, which overflows above radius 16383. Filled shapes are lists of line calls; the copies that paint a framebuffer differ only in where these go.
- Triangles.FillTriangle: what happens when 16 bits overflow; TriangleRange.NoOverflow says when nothing does. Coordinates are unbounded integers.
- TextLayout.Printer.DrawChar: how the dots of a pattern are packed into bytes; colours are only the text colour and the background colour.
- TextLayout.Style.TextStaysInBounds: goes one way; when the walks differ the box may still happen to hold the text. Cursor arithmetic is unbounded, and `char` is unsigned as on the ESP32.
- SmallString.String.ChangeBuffer: shrinking from the heap into the inline buffer, which no caller can reach because heap buffers hold more than the inline one, and requests within 16 bytes of 2^32, for which the size computation wraps.
- SmallString.String.Move: a string with a buffer receiving one without, which copies from a null pointer; the caller can check this before the call.
- SmallString.String.Concat: appending a pointer into the string's own buffer through the `const char *` overload.
- SmallString.String.Replace: a longer replacement that a rest of the pattern starts, exactly where the counted size may be outgrown (ReplaceRight.UnlinkedDecides); embedded NULs in the text, the pattern, or a longer replacement, where strstr sees only what is before them; pattern or replacement being the string itself.
- Numbers.PrintNumber: `char` is unsigned as on the ESP32.
- Numbers.Ltoa: the smallest long, whose absolute value does not fit.
- Utf8.Utf8Len: bytes from 0xF8 on, for which the search runs past the table.
- Utf8.NextCp: a continuation byte in lead position, for which the shift is negative.
- LightSelection.ArrayShift: removing zeros when there are some, where the loop never ends.
- LightSelection.Selection.SelectLight: more than 20 lights, where the code writes past the list; light ids are distinct, from 1 to 255.
- Networking, JSON, the touch and temperature devices, bitmaps, page drawing and button widgets: plumbing and data.
- Floating-point printing, font and icon tables, compressed glyphs and greyscale font drawing.
- Outlines of rectangles and round rectangles, text rotation and colours: easy members beside those proved.
