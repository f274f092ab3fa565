# progress_bar in Dafny

A model of the terminal progress bar from bmc-labs/progress_bar. The repository holds
two copies of one class, `progress_bar`. They differ only in integer type:

- `bmc::progress_bar` (include/progress_bar.h) keeps its bounds and counter in `std::size_t`.
  It is modelled in module `Bmc`, over the newtype `Ints.usize`.
- `flrn::progress_bar` (include/progress.h) keeps them in a signed `int`, so `min` may be
  negative. It is modelled in module `Flrn`, over the newtype `Ints.int32`.

Each class is a small state machine. The counter `current` stays inside `[min, max]` and
moves by saturating increment, decrement, `step` and `set`. `disp()` may step the counter
once and then renders one line of text. The line has this shape:

- `[`, then `bar_length + 1` cells: `-` before the head, one `>` at the head, blanks after it;
- then `] `, the truncated percentage right-aligned in three columns, and `%`;
- then the elapsed-time suffix, while `show_time` holds.

Files:

- `ints.dfy` (module `Ints`): the two C++ integer types and `std::size_t` wrap-around.
- `errors.dfy` (module `Errors`): the constructor's two exceptions, as a `Result`.
- `layout.dfy` (module `Layout`): the rendering half of `disp()`. It is the same in both
  headers up to the integer type of the percentage cast, and the two casts agree on
  values in [0, 100]. It holds the layout constants, `line_length` and `bar_length`, the percentage
  and head position, the loop that writes the bar, the percentage field, and one frame.
- `bmc.dfy` (module `Bmc`) and `flrn.dfy` (module `Flrn`): one class per header. Each class
  keeps the fields the source updates (`current`, `showTime`) as `var`s and its `const`
  members as `const`s. Its methods change those fields in place, and each method's
  `ensures` gives the whole new state as an update of the old one.

`disp()` takes the terminal width and the formatted time suffix as parameters. In the
source these come from an `ioctl` and from the clock. The `double` arithmetic of
`progress` and `std::round` is modelled with exact reals. `std::round` on a non-negative
value is `floor(x + 1/2)`.

Facts the proofs bring out about the code as written:

- A frame is `bar_length + 8` columns. That is one more than the `line_length` left after
  the time field is taken off (`Layout.FrameWidth`). The loop `i <= bar_length` writes
  `bar_length + 1` cells, but only `MISC_SYMBOLS_LENGTH = 7` columns are reserved around
  them. On a narrow line with no time suffix, the output is `line_length + 1` columns.
- The percentage reads 100 exactly at `current == max`. The head position does not follow
  the same rule: rounding can put the head on the last cell one step before completion
  (`Layout.HeadReachesEndEarly`).
- In the `std::size_t` variant, `step` wraps before it clamps. So when `max` is the largest
  `std::size_t`, a complete auto-incrementing bar falls back to `min` on its next
  `disp()` (`Bmc.StepWrapsAtLargestMax`).

Two further facts about `disp()`:

- On a narrow line, `disp()` clears `show_time` for good, so later frames on a wide line
  show no time either (`Layout.KeepsTime`).
- The time suffix prints the total elapsed seconds, not seconds modulo 60. The suffix is
  left out of the model (see below).

## Model

| member | source | states |
|---|---|---|
| Errors.ConstructorError | include/progress_bar.h:63-68 | construction succeeds iff `min < max` and `width != 0`; `range_error` exactly when `max <= min` (checked first); `invalid_argument` exactly when the bounds are fine and `width == 0` |
| Ints.WrapAdd | include/progress_bar.h:102 | `size_t` addition is the exact sum below 2^64 and the sum less 2^64 above it |
| Layout.LineLength | include/progress_bar.h:110 | `line_length` is the product of terminal width and width percentage divided by 100, rounded down, when the product does not wrap |
| Layout.KeepsTime | include/progress_bar.h:111-112 | the time suffix survives only if it was on and the line has at least 50 columns; once off it stays off |
| Layout.BarLength | include/progress_bar.h:111-116 | the line splits exactly into the bar, the 7 fixed symbol columns, and the 20 time columns when the time is kept |
| Layout.Progress | include/progress_bar.h:118-119 | `progress` lies in `[0, 100]` and equals 100 exactly when `current == max` |
| Layout.ProgressRatio | include/progress.h:114-115 | before completion `progress` is the exact ratio `100 * done / total`, below 100 |
| Layout.Round | include/progress_bar.h:122 | `std::round` on a non-negative value gives the integer `n` with `n <= x + 1/2 < n + 1` |
| Layout.Position | include/progress_bar.h:121-123 | the head is never past `bar_length`, and at completion it is exactly `bar_length` |
| Layout.Percent | include/progress_bar.h:136 | the printed percentage is at most 100 and equals 100 exactly at completion |
| Layout.PercentIsTruncatedRatio | include/progress.h:132 | the printed percentage is the integer quotient `100 * (current - min) / (max - min)` |
| Layout.PositionIsRoundedRatio | include/progress_bar.h:121-123 | before completion the head is at `(current - min) * bar_length / (max - min)` rounded half up |
| Layout.PositionMonotone | include/progress_bar.h:118-123 | as the counter grows the head never moves back |
| Layout.HeadReachesEndEarly | include/progress_bar.h:121-123 | at 999 of 1000 on a 10-cell bar the head is already on the last cell while the percentage reads 99 |
| Layout.Cell | include/progress_bar.h:128-134 | a cell is the head exactly at `position` and a fill exactly before it |
| Layout.Bar | include/progress_bar.h:127-135 | the bar has `bar_length + 1` cells, and a cell is the head exactly at `position` |
| Layout.RenderBar | include/progress_bar.h:127-135 | the loop writes exactly the `bar_length + 1` cells of the bar |
| Layout.BarDecomposition | include/progress.h:123-131 | the bar is `position` fills, one `>`, then `bar_length - position` blanks |
| Layout.BarHasOneHead | include/progress_bar.h:127-135 | the bar holds exactly one `>`, at index `position` |
| Layout.Decimal | include/progress_bar.h:136 | the decimal text of a number is non-empty and all digits |
| Layout.DecimalRoundTrip | include/progress_bar.h:136 | the decimal text written for a number reads back as that number |
| Layout.PadLeft | include/progress.h:132 | `std::setw` yields blanks followed by the whole text, at least the field width long and no longer than needed |
| Layout.PercentField | include/progress_bar.h:136 | the percentage field is exactly three columns of digits and blanks |
| Layout.PercentFieldRoundTrip | include/progress.h:132 | the percentage field is the number right-aligned, and it reads back as the number |
| Layout.Frame | include/progress_bar.h:125-136 | a frame is `bar_length + 8` columns |
| Layout.RenderFrame | include/progress.h:121-132 | the string stream holds exactly the frame for the counter and bar length |
| Layout.FrameReportsPercent | include/progress_bar.h:136 | columns `bar_length + 4 .. bar_length + 7` of a frame read back as the truncated percentage, and they read `100` exactly at completion |
| Layout.FrameHasOneHead | include/progress.h:121-132 | every frame contains exactly one `>` |
| Layout.CompletedFrame | include/progress_bar.h:118-136 | at completion the frame is `[`, `bar_length` fills, `>] 100%` |
| Layout.FrameWidth | include/progress_bar.h:110-127 | a frame is one column wider than `line_length` after the time field is taken off |
| Bmc.ProgressBar.constructor | include/progress_bar.h:51-62 | a constructed bar keeps the given bounds, width and flags, and its counter starts at `min` |
| Bmc.ProgressBar.Copy | include/progress_bar.h:80 | the copy a postfix operator returns equals the bar's state at that moment |
| Bmc.ProgressBar.Create | include/progress_bar.h:51-69 | construction fails iff `max <= min` or `width == 0`, with the error `ConstructorError` picks; on success it gives a fresh valid bar with the counter at `min` |
| Bmc.ProgressBar.Size | include/progress_bar.h:71 | `size()` is positive and `min + size() == max`, whatever the counter |
| Bmc.ProgressBar.Clamp | include/progress_bar.h:153-157 | the result lies in `[min, max]`; the identity in range; values below go to `min` and values above to `max` |
| Bmc.ProgressBar.Increment | include/progress_bar.h:73-76 | adds one iff `current < max`, changes nothing else, returns the bar itself |
| Bmc.ProgressBar.PostIncrement | include/progress_bar.h:78-85 | returns a fresh copy of the state before the call; then adds one iff `current < max` and changes nothing else |
| Bmc.ProgressBar.Decrement | include/progress_bar.h:87-90 | subtracts one iff `current > min`, changes nothing else, returns the bar itself |
| Bmc.ProgressBar.PostDecrement | include/progress_bar.h:92-99 | returns a fresh copy of the state before the call; then subtracts one iff `current > min` and changes nothing else |
| Bmc.ProgressBar.Step | include/progress_bar.h:101-103 | the counter becomes the clamp of the wrapped sum; nothing else changes |
| Bmc.ProgressBar.Set | include/progress_bar.h:105 | the counter becomes the clamp of the value; nothing else changes |
| Bmc.ProgressBar.Disp | include/progress_bar.h:107-150 | steps once iff auto-increment is on; keeps `show_time` only on a line of at least 50 columns; returns the frame for the new counter, followed by the time suffix exactly while `show_time` holds |
| Bmc.IncrementThenDecrement | include/progress_bar.h:73-99 | below `max`, postfix `++` then prefix `--` restores the state, and the returned copy equals it |
| Bmc.DecrementThenIncrement | include/progress_bar.h:73-99 | above `min`, postfix `--` then prefix `++` restores the state, and the returned copy equals it |
| Bmc.ClampIsNearest | include/progress_bar.h:153-157 | `clamp` returns the value in `[min, max]` nearest to its input |
| Bmc.StepSaturates | include/progress_bar.h:101-103 | without wrap-around, `step` lands on the sum or saturates at `max` |
| Bmc.StepWrapsAtLargestMax | include/progress_bar.h:102 | when `max` is the largest `size_t`, a step of one from `max` wraps and clamps back to `min` |
| Bmc.RenderAfterCompletion | include/progress_bar.h:107-149 | a complete auto-incrementing bar stays at `max`; two renders, each with its own clock reading, both begin with the full 100% frame, and are equal when the time is off |
| Bmc.FiveRenders | include/progress_bar.h:107-136 | a bar over `[0, 4]` rendered five times at half of 80 columns reads 1, 2, 3, 4, 4; the last two lines are the same full 100% frame |
| Flrn.ProgressBar.constructor | include/progress.h:52-60 | a constructed bar keeps the given bounds, width and flags, and its counter starts at `min` |
| Flrn.ProgressBar.Copy | include/progress.h:78 | the copy a postfix operator returns equals the bar's state at that moment |
| Flrn.ProgressBar.Create | include/progress.h:52-67 | construction fails iff `max <= min` or `width == 0`, negative bounds included; on success it gives a fresh valid bar with the counter at `min` |
| Flrn.ProgressBar.Size | include/progress.h:69 | `size()` is positive and `min + size() == max`, whatever the counter |
| Flrn.ProgressBar.Clamp | include/progress.h:149-153 | the result lies in `[min, max]`; the identity in range; values below go to `min` and values above to `max` |
| Flrn.ProgressBar.Increment | include/progress.h:71-74 | adds one iff `current < max`, changes nothing else, returns the bar itself |
| Flrn.ProgressBar.PostIncrement | include/progress.h:76-83 | returns a fresh copy of the state before the call; then adds one iff `current < max` and changes nothing else |
| Flrn.ProgressBar.Decrement | include/progress.h:85-88 | subtracts one iff `current > min`, changes nothing else, returns the bar itself |
| Flrn.ProgressBar.PostDecrement | include/progress.h:90-97 | returns a fresh copy of the state before the call; then subtracts one iff `current > min` and changes nothing else |
| Flrn.ProgressBar.Step | include/progress.h:99 | for a step of either sign, the counter becomes the clamp of the sum; nothing else changes |
| Flrn.ProgressBar.Set | include/progress.h:101 | the counter becomes the clamp of the value; nothing else changes |
| Flrn.ProgressBar.Disp | include/progress.h:103-146 | steps once iff auto-increment is on; keeps `show_time` only on a line of at least 50 columns; returns the frame for the new counter, followed by the time suffix exactly while `show_time` holds |
| Flrn.IncrementThenDecrement | include/progress.h:71-97 | below `max`, postfix `++` then prefix `--` restores the state, and the returned copy equals it |
| Flrn.DecrementThenIncrement | include/progress.h:71-97 | above `min`, postfix `--` then prefix `++` restores the state, and the returned copy equals it |
| Flrn.ClampIsNearest | include/progress.h:149-153 | `clamp` returns the value in `[min, max]` nearest to its input |
| Flrn.StepSaturates | include/progress.h:99 | a step of either sign lands on the sum or saturates at the bound it overshoots |
| Flrn.RenderAfterCompletion | include/progress.h:103-145 | a complete auto-incrementing bar stays at `max`; two renders, each with its own clock reading, both begin with the full 100% frame, and are equal when the time is off |
| Flrn.Demo | src/main.cc:29-50 | the demo bar over `[-13, 156]` advances by one on each of its `size()` renders; line `k` is frame `k + 1` of 169 followed by that render's own time suffix, and the extra render again begins with the full 100% frame |

## Left out

- `term_width()` (the `ioctl` or console query) is not modelled. The terminal width is a parameter of `Disp`.
- The elapsed-time suffix is not modelled. It reads `high_resolution_clock` and formats a
  `double`. `Disp` takes the already formatted suffix as a parameter and appends it
  exactly while `showTime` holds. Callers that render more than once pass one suffix per
  render, since the clock advances between renders. The `_timestamp` member is not modelled either.
- `double` arithmetic is not modelled. `progress`, `position` and the percentage cast use
  exact reals, so rounding error in the last bit of a `double` is not captured.
- `operator<<` is not modelled. It writes the ANSI erase and cursor-up sequence, then the
  frame and a newline, to a stream, which is output framing only.
- src/main.cc: the vector data, the sleeps and the printing are not modelled. Only its
  sequence of renders is, in `Flrn.Demo`.
- dings.cc is not part of this model. It passes `min = 100, max = 50`, which throws, and
  it writes through a `const` reference, so it does not compile as written.
- Bmc.ProgressBar.Disp: requires `line_length >= 7`. Below that, `line_length - 7`
  wraps in `size_t`, and the loop would write about 2^64 cells.
- Flrn.ProgressBar.Disp: requires `line_length >= 7` for the same reason.
  - It requires `current < INT_MAX` when auto-increment is on, because `step(1)` would overflow a signed `int`.
  - It requires `max - min` to fit in an `int`. This is stronger than the source, which never evaluates `max - min` once the bar is complete.
- Flrn.ProgressBar.Step: requires `current + steps` to fit in an `int`, because signed overflow is undefined.
- Flrn.ProgressBar.Size: requires `max - min` to fit in an `int`, for the same reason.
- Flrn.RenderAfterCompletion: requires `max < INT_MAX`, because the `step(1)` at `max` would overflow a signed `int`.
- Bmc.RenderAfterCompletion: holds only when `max` is below the largest `size_t`. At that value the step wraps back to `min` (`Bmc.StepWrapsAtLargestMax`).
