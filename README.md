# bevy_terminal_display core, modelled in Dafny

This project models the core logic of a Bevy plugin that shows a rendered scene in a terminal.

- **Braille encoder.** Each frame, `print_to_terminal` turns a grayscale render image into Braille characters.
  - Each character covers a cell of 2 by 4 pixels, and cells are emitted row by row.
  - A pixel is drawn as a raised dot only when its byte is exactly `0xFF`.
  - The dot of sub-pixel `(dx, dy)` is bit `[0,1,2,6,3,4,5,7][dx*4+dy]` of the cell's mask.
  - The mask becomes the character U+2800 + mask (`braille_char`).
- **Widget order.** The enabled widgets are drawn over the image, sorted by depth.
- **Resizing.** `resize_handling` gives every render image the size `(w*2, h*4)` whenever the terminal reports a resize to `w` by `h` characters.
- **Input.** A capture thread pushes every raw terminal event onto a shared `Vec`. Once per frame, `input_handling` does three things:
  - it clears the released marks of the `TerminalInput` key state;
  - it pops every event off the end of the `Vec`, and applies key presses and key releases to the key state;
  - it forwards every popped event.
- **Older version.** The repository also keeps an older copy of these systems in `src/systems.rs`.
  - Its encoder, `braille_char` and `resize_handling` are the same code as in `src/display/systems.rs`, and the same members model them.
  - Its encoder and input path differ in two ways, both modelled: it skips a 1-by-1 image, and its `input_handling` never clears the released marks.
  - Its widget handling also differs, and is not modelled: it draws the widgets of `TerminalUI` in stored order, with no enabled filter and no depth sort, and `widget_input_handling` sends every event to every widget.

Modules:

- `Wrappers`: the `Option` type.
- `InputEvents`: the crossterm event types, reduced to what the core inspects.
- `Resources`:
  - the key state as a value (`KeyState`) with its operations;
  - the `TerminalInput` resource as a class updated in place;
  - the shared `EventQueue` as a class holding a sequence.
- `InputSystems`:
  - the drain loop and `input_handling`, proved against the specification functions `ApplyAll` and `PopOrder`;
  - the arrival-order variant (see Findings).
- `DisplaySystems`:
  - `braille_char`;
  - the specification `Encode` of the encoder, and the loop `EncodeImage` proved equal to it;
  - the resize rule and the `resize_handling` loop.
- `WidgetOrder`: the filter and stable sort by depth.
- `LegacySystems`: the older `print_to_terminal` and `input_handling`.

`input_handling` applies key events in pop order; it does not sort them by kind, and the key state keeps only the pressed and released sets.

## Model

| member | source | states |
|---|---|---|
| Resources.KeyState.Press | src/resources.rs:21-25 | after `press(c)`, `c` is held; the released set is unchanged; every other key's held status is unchanged |
| Resources.KeyState.Release | src/resources.rs:27-34 | after `release(c)`, `c` is not held and is marked released; every other key's membership in both sets is unchanged |
| Resources.KeyState.ClearReleased | src/input/systems.rs:30 | `clear_released` leaves no key marked released and the held keys untouched |
| Resources.DefaultIsEmpty | src/resources.rs:6-10 | the default `TerminalInput` has no key held and none released |
| Resources.PressIdempotent | src/resources.rs:22-24 | pressing a key that is already held changes neither set |
| Resources.ReleaseIdempotent | src/resources.rs:28-33 | releasing twice equals releasing once; releasing a key that is not held leaves the held set as it was, and still marks the key released |
| Resources.ReleaseThenPress | src/resources.rs:21-34 | `press` does not clear the released mark: release then press leaves the key both held and released |
| Resources.TerminalInput.IsPressed | src/resources.rs:13-15 | `is_pressed` answers whether the key is in the held set of the current state |
| Resources.TerminalInput.IsReleased | src/resources.rs:17-19 | `is_released` answers whether the key is in the released set of the current state |
| Resources.TerminalInput.constructor | src/resources.rs:6-10 | a new `TerminalInput` has both sets empty |
| Resources.TerminalInput.Press | src/resources.rs:21-25 | the in-place `press` updates the two sets exactly as `KeyState.Press` |
| Resources.TerminalInput.Release | src/resources.rs:27-34 | the in-place `release` updates the two sets exactly as `KeyState.Release` |
| Resources.TerminalInput.ClearReleased | src/input/systems.rs:30 | the in-place `clear_released` empties the released set only |
| Resources.EventQueue.Push | src/input/systems.rs:14 | the capture thread appends the event it read at the end of the queue |
| Resources.EventQueue.Pop | src/input/systems.rs:32 | `Vec::pop` returns the last event and removes it, or returns nothing when the queue is empty |
| InputSystems.Apply | src/input/systems.rs:33-43 | a Press event leaves its key held and the released set unchanged; a Release event leaves its key not held and marked released; no other key changes, and Repeat and non-key events change nothing |
| InputSystems.PopOrderAt | src/input/systems.rs:32 | repeated popping delivers every queued event once, the i-th popped being the i-th from the end (last in, first out) |
| InputSystems.PopOrderPermutes | src/input/systems.rs:32-44 | the popped events are the queued events, each as many times as it was queued |
| InputSystems.DrainQueue | src/input/systems.rs:31-45 | the drain loop leaves the queue empty, forwards the events in pop order, and leaves the key state as if Press called `press`, Release called `release`, and Repeat and non-key events did nothing, in that order |
| InputSystems.InputHandling | src/input/systems.rs:25-46 | `input_handling` clears the released marks once, before any event is applied, then drains the queue as `DrainQueue` |
| InputSystems.PassThroughKeepsState | src/input/systems.rs:33-43 | Repeat key events and non-key events never change the key state |
| InputSystems.OtherKeysUntouched | src/input/systems.rs:33-43 | a key's held and released status changes only through press or release events for that key |
| InputSystems.ReleasedOnlyGrows | src/systems.rs:136-149 | applying events never removes a released mark |
| InputSystems.ApplyAllSplit | src/input/systems.rs:32-44 | applying a sequence of events equals applying its first part and then its second part |
| InputSystems.LastKeyEventDecides | src/resources.rs:21-34 | whether a key ends up held is decided by the last press or release of it that is applied |
| InputSystems.EarliestArrivalDecides | src/input/systems.rs:32-43 | after draining by `pop`, the EARLIEST queued press or release of a key decides whether it is held |
| InputSystems.PopOrderReversesTyping | src/input/systems.rs:32 | 'a' typed before 'b' is forwarded as 'b' then 'a' |
| InputSystems.TapWithinOneFrameStaysHeld | src/input/systems.rs:30-43 | a key pressed and released within one frame is still held after `input_handling` |
| InputSystems.DrainQueueInOrder | src/input/systems.rs:31-45 | the corrected drain empties the queue and forwards and applies its events oldest first |
| InputSystems.InputHandlingInOrder | src/input/systems.rs:25-46 | the corrected `input_handling` clears the released marks, then applies and forwards the events in arrival order |
| InputSystems.TapWithinOneFrameIsReleased | src/input/systems.rs:30-43 | in arrival order, a key pressed and released within one frame ends up not held and marked released |
| DisplaySystems.BrailleChar | src/display/systems.rs:94-104 | for every `u8` mask the result is the character U+2800 + mask, within U+2800..U+28FF; neither panic branch is reachable |
| DisplaySystems.PixelIndex | src/display/systems.rs:56-58 | the index `y*W+x` of an in-image pixel is inside a buffer of `W*H` bytes, so the encoder never reads out of bounds |
| DisplaySystems.DotBitsDistinct | src/display/systems.rs:19-23 | the dot table gives the eight sub-pixels eight different bits |
| DisplaySystems.MaskPrefixBit | src/display/systems.rs:53-63 | after `k` sub-pixels, the bit of sub-pixel `j` is set exactly when `j < k` and that sub-pixel is in the image and is `0xFF` |
| DisplaySystems.CellMaskBit | src/display/systems.rs:54-61 | a dot of a cell's mask is set exactly when its sub-pixel is in the image and its byte is exactly `0xFF`; bytes 0..254 and pixels past the edge leave it clear |
| DisplaySystems.FullAndEmptyCells | src/display/systems.rs:19-23 | a fully lit cell gives U+28FF and a fully dark cell gives U+2800 |
| DisplaySystems.AllBits | src/display/systems.rs:19-23 | a mask whose eight table bits are all set is `0xFF`, and one with none set is 0 |
| DisplaySystems.RowGlyphsAt | src/display/systems.rs:52-65 | one cell row of output holds one glyph per cell, in x-order |
| DisplaySystems.RowsGlyphsLength | src/display/systems.rs:51-65 | `r` cell rows of output hold `r * ceil(W/2)` glyphs |
| DisplaySystems.RowsGlyphsAt | src/display/systems.rs:51-65 | the glyph of cell (row, column) sits at index `row * ceil(W/2) + column`: row-major, no separators |
| DisplaySystems.EncodeAt | src/display/systems.rs:47-66 | the output has exactly ceil(W/2)·ceil(H/4) glyphs; the glyph of cell (row, column) is the Braille character of its mask, whose dot `dx*4+dy` is set exactly when pixel (2·column+dx, 4·row+dy) is in the image and is `0xFF` |
| DisplaySystems.CellOfIndex | src/display/systems.rs:51-65 | arithmetic helper for `DarkImageIsBlank`: an index below `rows*columns` splits into a row below `rows` and a column below `columns` |
| DisplaySystems.DarkImageIsBlank | src/display/systems.rs:58 | an image with no `0xFF` byte encodes to blank Braille characters only |
| DisplaySystems.StepCount | src/display/systems.rs:51-52 | arithmetic helper for `EncodeImage`: a `step_by(2)` or `step_by(4)` loop that stops at the first step reaching the bound ran ceil(bound/step) times |
| DisplaySystems.CellMaskOf | src/display/systems.rs:53-63 | the two inner loops compute the cell's mask as the specification defines it |
| DisplaySystems.EncodeImage | src/display/systems.rs:47-66 | the encoder loop produces exactly `Encode(W, H, data)`, whose properties are stated in `EncodeAt` |
| DisplaySystems.ResizeTarget | src/display/systems.rs:116-120 | `Resize(w, h)` gives the image size `(w*2, h*4)`; both fit a `u32`; the image is then exactly `w` by `h` cells |
| DisplaySystems.ResizeHandling | src/display/systems.rs:112-121 | every render image ends with the size set by the last resize event, and keeps its size when no event is a resize |
| DisplaySystems.ResizedImageFillsTerminal | src/display/systems.rs:112-121 | after a resize to `w` by `h`, an image of `8*w*h` bytes fits the new size and encodes to exactly `w*h` glyphs, one per terminal cell |
| WidgetOrder.EnabledMembers | src/display/systems.rs:80-83 | a widget is kept by the filter exactly when it is in the query and is enabled |
| WidgetOrder.InsertByDepthPermutes | src/display/systems.rs:84 | an insertion step adds exactly the inserted widget |
| WidgetOrder.InsertByDepthSorted | src/display/systems.rs:84 | an insertion step keeps the sequence sorted by depth |
| WidgetOrder.OfDepthAbsent | src/display/systems.rs:84 | a sequence with no widget of depth `d` has an empty depth-`d` subsequence |
| WidgetOrder.OfDepthAppend | src/display/systems.rs:84 | appending a widget extends its own depth's subsequence only |
| WidgetOrder.InsertByDepthOfDepth | src/display/systems.rs:84 | an insertion step puts the widget after every widget of its own depth |
| WidgetOrder.SortByDepthCorrect | src/display/systems.rs:84 | `sort_by` on depth yields a depth-sorted permutation that keeps widgets of equal depth in their original order |
| WidgetOrder.ActiveWidgets | src/display/systems.rs:80-84 | definition only (no contract): the enabled widgets, then sorted by depth; its properties are stated by `ActiveWidgetsOrder` |
| WidgetOrder.ActiveWidgetsOrder | src/display/systems.rs:80-87 | the rendered widgets are exactly the enabled ones, each once, in nondecreasing depth, with ties in query order |
| LegacySystems.PrintToTerminal | src/systems.rs:46-85 | a 1-by-1 image is skipped, whatever its data, and nothing is encoded; any other image is encoded exactly as `Encode` |
| LegacySystems.InputHandling | src/systems.rs:130-150 | the older `input_handling` drains the queue as `DrainQueue`, without clearing the released marks, so released marks carry over from frame to frame |

## Left out

- The capture threads (`setup_input`, and `setup` in `src/systems.rs`):
  - they block on terminal `read()` and panic on a read error;
  - the model keeps one step of them, appending one event (`EventQueue.Push`);
  - the mutex and the sharing across threads are not modelled: the queue is a plain object passed to the systems.
- Texture-format checking and conversion to one byte per pixel: Bevy library code. The model takes the buffer as already converted, with `|data| == W*H`.
- Locking the image and the `expect` on a poisoned lock: concurrency.
- Drawing with ratatui (`terminal.draw`, `Paragraph`, `Wrap`), the call to each widget's `render`, and the `expect` on a failed draw: terminal I/O and foreign calls. Only the string and the widget order are modelled.
- Widget event dispatch, the `TerminalWidget` trait, and `TerminalUI`: calls into opaque trait objects.
- Terminal setup and teardown, plugin wiring, log redirection, and camera and asset creation: engine and terminal I/O.
- KeyCode and Event: only the variants the core inspects are modelled; key modifiers and mouse-event details are dropped.
- DisplaySystems.CharFromU32: `char::from_u32` is a standard-library call; it is modelled by its documented behaviour, no character for surrogates or values above U+10FFFF.
- The older widget drawing and `widget_input_handling` in `src/systems.rs`: they draw the `TerminalUI` widgets in stored order and pass every event to every widget, both calls into opaque trait objects.
- DisplaySystems.EncodeImage: the pixel index `y*W+x` is a `u32` product, which overflows only for buffers of 2^32 bytes or more. The model computes the index without bounds.
- DisplaySystems.ResizeHandling: resize targets are modelled as pairs of sizes, and the asset lookup `images.get_mut(...).unwrap()` is assumed to succeed.
- WidgetOrder.ActiveWidgets: `sort_by` sorts a `Vec` in place inside the library. It is modelled as a function, a stable insertion sort, not as an in-place algorithm.
- Resources.KeyState.ClearReleased: the body of `clear_released` belongs to a newer `TerminalInput` that is not part of this model. It is modelled by its name, as emptying the released set and nothing else.
- Determinism of the encoder: the Dafny model is a function of `(W, H, data)`, so equal inputs give equal strings without a separate statement.

## Findings

| source | as written | input that shows it | evidently intended | confidence | as-written member | corrected member |
|---|---|---|---|---|---|---|
| src/input/systems.rs:32 (and src/systems.rs:136) | `while let Some(event) = event_queue.pop()` drains the queue from its end, so events of one frame are applied and forwarded newest first | queue `[Press 'a', Press 'b']` is forwarded as `[Press 'b', Press 'a']`; queue `[Press X, Release X]` leaves `X` held after the frame | events applied and forwarded in the order they arrived, so typed text keeps its order and a key tapped within one frame ends up released | medium, not executed | InputSystems.InputHandling (with InputSystems.PopOrderReversesTyping, InputSystems.TapWithinOneFrameStaysHeld) | InputSystems.InputHandlingInOrder (with InputSystems.TapWithinOneFrameIsReleased) |
