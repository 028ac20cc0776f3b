# ntpclock rasterizer and clock loop, in Dafny

This project models the core of `ntpclock.py`, a clock that shows `HH:MM:SS` on a
32x8 LED matrix, either on four MAX7219 modules or in a Tkinter emulator:

- the 3x7 bitmap font `DIGIT_FONT` (module `Font`);
- `draw_char` and `draw_time_string`, which light pixels of a frame in place
  (module `Raster`, methods over an `array2<bool>` indexed `frame[x, y]` as PIL's
  `pixels[x, y]`);
- `format_time`, with a parser as its inverse (module `TimeFormat`);
- the emulator's state: its `_running` flag, the window teardown, the LED colour
  and the fill colour of every LED (class `Emulator.TkinterEmulator`, LEDs indexed
  `leds[y, x]` as the source's `self.leds[y][x]`);
- `CanvasContext` (a fresh blank frame pushed to `display` once) and the
  second-change trigger of `run_clock` (module `ClockLoop`).

The wall clock becomes a finite sequence of events: a clock reading (`Poll`), the
user closing the emulator window (`WindowClosed`) or a keyboard interrupt
(`Interrupted`). `ClockLoop.Run` folds one iteration of the loop (`ClockLoop.Next`)
over the events; the imperative `ClockLoop.RunClock` is proved to end in the
state `Run` describes, and the lemmas about `Run` state the render trigger.

Two behaviours of the code worth stating:

- A character missing from the font is skipped entirely by `draw_time_string`: no
  glyph, no advance and no one-pixel gap (ntpclock.py:72). `Raster.UnknownSkipped`
  proves that removing such characters changes neither the cursor nor any pixel.
- `CanvasContext.__exit__` pushes the frame whenever the `with` block ends
  (ntpclock.py:183-185). Nothing inside the block raises on its own, so
  `RenderFrame` draws the whole time and then pushes once; a keyboard interrupt
  arriving mid-draw is not modelled (see "Left out").

## Model

| member | source | states |
|---|---|---|
| Font.FontShape | ntpclock.py:25-37 | The font has exactly '0'..'9' and ':'; every glyph has 7 rows; digit rows are below 8 and colon rows below 2; the advance is 3 for a digit and 1 for the colon. |
| Font.GlyphColumnsCoverRows | ntpclock.py:46-54 | Every set bit k of a glyph row lies inside the glyph width and is drawn, at column width-1-k (MSB first). |
| Font.NoBitBeyondWidth | ntpclock.py:49-51 | A row below 2^w has no set bit at position w or above, so scanning w columns misses nothing. |
| Font.Advance | ntpclock.py:42-54 | The width draw_char returns is positive exactly for font characters, and every row of such a glyph is below 2^width, so the width covers all its bits. |
| Raster.Point | ntpclock.py:52 | `draw.point` lights exactly the one pixel named when it is inside the frame and changes nothing else. |
| Raster.DrawChar | ntpclock.py:40-54 | Returns 0 for a character outside the font, 3 for a digit and 1 for ':'. Afterwards each pixel is lit iff it was lit before or bit (width-1-c) of row r is set for pixel (x+c, y+r). No pixel is cleared, and an unknown character changes nothing. |
| Raster.DrawTimeString | ntpclock.py:57-74 | Each pixel ends lit iff it was lit before or some font character of the string, drawn at the cursor its predecessors reached from x=2, lights it. |
| Raster.Step | ntpclock.py:72-74 | The cursor moves only after a font character, and then by 2 (colon) or 4 (digit); any other character moves it by nothing. |
| Raster.Cursor | ntpclock.py:69-74 | The cursor starts at 2 and, after a string of n characters, lies between 2 and 2 + 4n. |
| Raster.CursorCounts | ntpclock.py:69-74 | The cursor after a string is 2 + 4 per digit + 2 per colon; other characters add nothing. |
| Raster.TextLitBounds | ntpclock.py:69-74 | Every lit pixel lies between column 2 and the final cursor minus 2, and within the 7 glyph rows. |
| Raster.UnknownSkipped | ntpclock.py:71-74 | Dropping the characters the font lacks changes neither the final cursor nor any pixel. |
| Raster.Known | ntpclock.py:72 | The characters of a string that the font has, each of them a font key. |
| Raster.TimeStringInFont | ntpclock.py:241 | Every character of an `HH:MM:SS` string is in the font. |
| Raster.TimeLayout | ntpclock.py:61-74 | For any `HH:MM:SS` string the glyph left edges are 2, 6, 10, 12, 16, 20, 22, 26 and the final cursor is 30. |
| Raster.TimeFits | ntpclock.py:66-69 | A drawn time string lights only columns 2..28 and 7 rows from the offset. |
| Raster.TwelveThirtyFourFiftySix | ntpclock.py:61-74 | The layout of "12:34:56": left edges 2, 6, 10, 12, 16, 20, 22, 26, final cursor 30. |
| TimeFormat.Pad2 | ntpclock.py:241 | `{n:02d}` for n below 100: two decimal digits whose value is n. |
| TimeFormat.FormatTime | ntpclock.py:231-241 | The result has 8 characters, ':' at indices 2 and 5, digits elsewhere, and its three two-digit fields are the hour, the minute and the second. |
| TimeFormat.ParseTime | ntpclock.py:241 | The inverse reading of a time string: when it succeeds, the string has the time shape and the fields are in range. |
| TimeFormat.ParseFormat | ntpclock.py:241 | Parsing a formatted time gives that time back. |
| TimeFormat.FormatParse | ntpclock.py:241 | A string that parses is the formatting of its parse, so format_time is a bijection onto time strings. |
| TimeFormat.FormatInjective | ntpclock.py:241 | Different times are formatted differently. |
| TimeFormat.FormatExamples | ntpclock.py:241 | (7,5,9) gives "07:05:09", (0,0,0) gives "00:00:00", (23,59,59) gives "23:59:59". |
| Emulator.TkinterEmulator.constructor | ntpclock.py:113-132 | A new emulator runs, has not destroyed its window, and has every LED in the off colour. |
| Emulator.TkinterEmulator.OnClose | ntpclock.py:134-136 | Closing the window stops the emulator and destroys the window once. |
| Emulator.TkinterEmulator.Cleanup | ntpclock.py:160-164 | After cleanup the emulator is stopped and the window was destroyed exactly once; a second call changes nothing. |
| Emulator.TkinterEmulator.Display | ntpclock.py:138-156 | Fails iff the emulator is stopped, leaving the LEDs untouched; otherwise every LED gets the LED colour iff its pixel is lit and "#2a2a2a" if not. |
| ClockLoop.RenderFrame | ntpclock.py:172-185 | A blank frame of the device's size with the formatted time drawn on it is pushed once; the LEDs then show exactly the pixels of that time, or are untouched when the device is stopped. |
| ClockLoop.Next | ntpclock.py:257-269 | One iteration: a stopped loop stays as it is; a frame is added exactly when the loop runs, the device runs, and a poll's second differs from last_second, and that frame shows the poll; a poll with a new second on a stopped device, or an interrupt, stops the loop; the device never restarts. |
| ClockLoop.Run | ntpclock.py:255-266 | The render count is zero iff nothing has been shown; the time shown was one of the polls; the device only stops, never restarts. |
| ClockLoop.RunClock | ntpclock.py:244-272 | The loop's render count, stop flag, device running flag and LED contents are those `Run` gives for the events. |
| ClockLoop.StoppedIsFinal | ntpclock.py:271-272 | Once the loop has stopped, later events change nothing. |
| ClockLoop.LastRendered | ntpclock.py:261-262 | The latest poll at which the second changed is one of the polls and has the latest poll's second. |
| ClockLoop.PollsRender | ntpclock.py:255-266 | Polling a running device: the first poll renders; frames = 1 + number of adjacent second changes; last_second is the latest poll's second; the frame shown is the latest poll at which the second changed. |
| ClockLoop.RenderOnChange | ntpclock.py:261-262 | A later poll renders iff its second differs from the previous poll's. |
| ClockLoop.NoRenderAfterClose | ntpclock.py:138-141 | After the window is closed no further frame is pushed and the device stays stopped unless the loop already has. |
| ClockLoop.Rollover | ntpclock.py:255-266 | 23:59:59 then 00:00:00 gives two renders, the latest showing "00:00:00". |
| ClockLoop.FrameFitsDisplay | ntpclock.py:66-69 | Every pixel of a rendered time lies in columns 2..28 and rows 0..6 of the 32x8 display. |
| ClockLoop.ClockSession | ntpclock.py:305-323 | A fresh emulator run through the loop and cleaned up: the window is destroyed exactly once, whichever way the loop ended. |

## Left out

- Tk window, canvas, oval geometry, `root.update()` and `root.destroy()` internals (ntpclock.py:84-131, 158): GUI calls into a foreign library. The model keeps the LED fill grid, the running flag and a count of window teardowns.
- Emulator.TkinterEmulator.OnClose: requires a running emulator, because Tk delivers `WM_DELETE_WINDOW` only while the window exists, and the window exists exactly while the emulator runs. `ClockLoop.RunClock` ignores a `WindowClosed` event for a stopped device for the same reason.
- The hardware path: luma's SPI and MAX7219 setup and the rebinding of the global `canvas` to luma's version (ntpclock.py:209-226). This is a foreign driver.
- `contrast` (ntpclock.py:166-169): floating-point arithmetic followed by hex formatting. The LED colour is a plain field that nothing in the model changes.
- PIL `Image`/`ImageDraw` and the mode-'1' conversion (ntpclock.py:144-147, 177-178): the frame is a boolean grid, so the conversion is the identity.
- `datetime.now()` and `time.sleep(0.01)` (ntpclock.py:258, 269): wall-clock I/O, replaced by the event sequence. The sequence is finite; the source loop runs until interrupted.
- `main` apart from the emulator session: argument parsing, `--brightness`, exit codes and the `ImportError` branch (ntpclock.py:275-320) are process plumbing.
- Keyboard interrupts are modelled only between loop iterations (the `Interrupted` event). A Ctrl+C inside `draw_time_string` would still let `CanvasContext.__exit__` push the half-drawn frame (ntpclock.py:183-185), and one inside `display`'s LED loop (ntpclock.py:149-156) would leave the LED grid half updated; neither is captured.
- `print` messages (ntpclock.py:207, 226, 252, 272) are console output.
- TimeFormat.Pad2 and TimeFormat.FormatTime: require fields in range (hour below 24, minute and second below 60), which every `datetime` guarantees; `{n:02d}` for 100 or more is not modelled.
- Font.IsDigit: models `str.isdigit` only on ASCII digits. draw_char asks it only about font characters, which are ASCII, so the model of draw_char is exact; the digit count used in `Raster.CursorCounts` would differ from `str.isdigit` on non-ASCII digits, which the font lacks and which therefore move the cursor by nothing either way.
