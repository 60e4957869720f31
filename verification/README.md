# Wheel picker — a Dafny model

The page `js/app.js` lets a user fill a list of up to twelve text entries and
spin a canvas wheel that has one equal segment per entry. The wheel
decelerates for three to five seconds, and the entry under the pointer on the
right-hand side wins. This project models the logic behind that page over
explicit state instead of the DOM, and proves what the logic promises.

- `text.dfy`, module `Text`: JavaScript's `String.prototype.trim` and the
  first-occurrence `replace` that the page uses on strings.
- `entries.dfy`, module `EntryList`: the `<ul>` as a sequence of `Item`s. Each
  item holds the `<li>`'s text content, which is the entry text followed by the
  `×` label of its delete button, and its `data-color`. The module covers
  `addEntry` (trim, blank check, the twelve-entry cap, palette colour), the
  delete button and `getEntries`, with the text round trip through the stored
  label.
- `rotation.dfy`, module `Rotation`: the angle arithmetic.
  - the segment size;
  - the normalisation loop `while (r > 2π) r -= 2π`;
  - JavaScript's truncating `%` on reals and integers;
  - the winner formula `floor((2π - r % 2π) / segmentAngle) % n`, and proofs
    that it picks the segment under the pointer;
  - the cubic ease-out curve, the progress fraction and the interpolation step.
- `wheel.dfy`, module `Wheel`: the page state and its handlers.
  - the add button and the delete buttons;
  - the spin button: the `spinning` guard, the two-entry minimum, the duration
    and the target five to six turns ahead;
  - the animation frame callback: easing, normalisation, stop and winner;
  - proofs that the click starting a spin already fixes its winner,
    provided no entry is added or deleted during the spin.

Angles are exact reals. `TwoPi` is the exact value of the double that
`2 * Math.PI` evaluates to, but no floating-point rounding is modelled. The
clock (`Date.now()`) and the three `Math.random()` draws of a spin are
parameters of the handlers, with the range `[0, 1)` that `Math.random`
guarantees.

Two places where the model follows the code rather than the obvious intent:
- The rotation is meant to be brought into one turn after each frame, which
  reads naturally as `[0, 2π)`. The loop only subtracts while the rotation is
  strictly above `2π`, so a rotation of exactly `2π` survives.
  `Rotation.Reduced` and `Wheel.Valid` allow it, and
  `Rotation.WinnerAtZeroAndFullTurn` shows that `0` and `2π` choose the same
  segment.
- Entries can be deleted while the wheel spins, because the delete handler
  has no guard. If every entry is deleted, the last frame of the spin indexes
  an empty array and `showResult` fails on `undefined`. The model reports this
  case as the frame outcome `NoEntries`.

## Model

| member | source | states |
|---|---|---|
| Text.Trim | js/app.js:40 | the trimmed text has no white space at either end and is the input with only white space removed around it |
| Text.TrimCharacterization | js/app.js:40 | trimming `s` gives `t` exactly when `t` has no white space at its ends and `s` is `t` framed by white space |
| Text.TrimIdempotent | js/app.js:92 | trimming an already trimmed text changes nothing |
| Text.TrimEmptyIffWhite | js/app.js:40-41 | the blank check fires exactly for inputs made only of white space |
| Text.RemoveFirst | js/app.js:92 | `replace('×', '')` deletes the first `×` and nothing else, and returns a string without `×` unchanged |
| Text.RemoveFirstOfAppended | js/app.js:92 | removing the first `×` from a `×`-free text followed by `×` gives the text back |
| EntryList.GetEntries | js/app.js:90-95 | one entry per list item in list order, each with the item's colour and a trimmed text |
| EntryList.ReadText | js/app.js:92 | the text read back from an item is trimmed and no longer than the item's content |
| EntryList.Add | js/app.js:39-68 | blank input leaves list and field unchanged; a full list (12 items) is left unchanged; otherwise exactly one item is appended, holding the trimmed text followed by the `×` label and colour `colors[count]`, earlier items stay, and the field is cleared |
| EntryList.Delete | js/app.js:59-61 | the item at `i` is removed and the others keep their relative order |
| EntryList.RoundTrip | js/app.js:51-64 | a trimmed text with no `×` of its own, stored with its button label, reads back unchanged |
| EntryList.RoundTripIff | js/app.js:92 | the round trip holds exactly when every character from the text's first `×` on is a `×` |
| EntryList.MarkInTextIsLost | js/app.js:92 | the text `a×b` reads back as `ab×`: the user's own `×` is the one removed |
| EntryList.AddThenRead | js/app.js:49-65 | after a successful add of input without a `×`, `getEntries` returns the old entries followed by the trimmed text with palette colour `count` |
| EntryList.DeleteThenRead | js/app.js:59-61 | after a delete, `getEntries` returns the old entries with exactly the `i`-th removed |
| EntryList.FillInOrder | js/app.js:39-72 | up to twelve non-blank texts without a `×`, added to an empty list, read back in insertion order, trimmed, with the palette's colours in order |
| Rotation.Seg | js/app.js:177 | the segment angle is positive and `n` segments make one turn |
| Rotation.RemTwoPi | js/app.js:221 | the real `%` by `2π` has the sign of its dividend, is below one turn in size, and keeps the position on the circle |
| Rotation.Reduced | js/app.js:201-203 | the normalised rotation is at most one turn, unchanged when already at most one turn, positive when turns were removed, and at the same place on the circle |
| Rotation.ReducedUnique | js/app.js:201-203 | any value that is the rotation less whole turns, at most one turn and positive when a turn was removed, is the normalised rotation |
| Rotation.ReducedTurns | js/app.js:201-203 | the normalised rotation is the rotation less a whole, non-negative number of turns |
| Rotation.Normalize | js/app.js:201-203 | the loop terminates, removes a whole number of turns, leaves the normalised rotation, and keeps a non-negative rotation non-negative |
| Rotation.IntRem | js/app.js:221 | the integer `%` agrees with the mathematical remainder on non-negative numbers and takes the dividend's sign otherwise |
| Rotation.WinnerIndex | js/app.js:217-221 | the winner index lies in `[0, n)` for every rotation |
| Rotation.WinnerIsUnderPointer | js/app.js:219-221 | segment `i` is under the pointer at angle 0 exactly when the formula picks `i` |
| Rotation.WinnerOfSameAngle | js/app.js:221 | rotations at the same place on the circle pick the same winner |
| Rotation.WinnerPeriodic | js/app.js:221 | whole turns do not change the winner |
| Rotation.WinnerOfReduced | js/app.js:201-221 | the normalisation loop does not change the winner |
| Rotation.WinnerAtZeroAndFullTurn | js/app.js:221 | rotations `0` and `2π` both pick segment 0 |
| Rotation.WinnerShift | js/app.js:221 | turning one segment forward moves the winner one segment back, cyclically |
| Rotation.WinnerShiftBy | js/app.js:221 | turning `s` segments forward moves the winner `s` segments back, cyclically |
| Rotation.WinnerOfSmallTurn | js/app.js:221 | a wheel turned by less than one segment, but not by nothing, has its last segment under the pointer |
| Rotation.EaseOut | js/app.js:193-195 | on `[0, 1]` the curve stays in `[0, 1]`, starts at 0, and reaches 1 only at 1 |
| Rotation.EaseOutMonotone | js/app.js:193-195 | the curve never decreases on `[0, 1]` |
| Rotation.Progress | js/app.js:189-190 | the progress is at most 1, is 1 exactly when the duration has elapsed, is non-negative for a non-negative elapsed time, and below 1 is elapsed over duration |
| Rotation.ProgressMonotone | js/app.js:189-190 | more elapsed time never gives less progress |
| Rotation.Step | js/app.js:198 | the step lands between the current rotation and the target, on the target when the eased progress is 1 |
| Rotation.StepMonotone | js/app.js:198 | toward a target ahead, a larger eased fraction never steps less far |
| Wheel.Init | js/app.js:14-18 | the page starts valid, at rest, with rotation 0 and no entries |
| Wheel.AddEntry | js/app.js:39-72 | the add succeeds exactly for non-blank input below the cap, touches only the list and the field, appends one item holding the trimmed text with its `×` label and the next palette colour, clears the field, shows the new entry in `getEntries` for input without a `×`, and keeps the state valid |
| Wheel.DeleteEntry | js/app.js:59-61 | a delete touches only the list, removes exactly the matching entry from `getEntries`, and keeps the state valid |
| Wheel.RandomSegment | js/app.js:178 | the drawn segment index is below the entry count |
| Wheel.RandomSegmentCovers | js/app.js:178 | every segment index is drawn by some value of `Math.random()` |
| Wheel.Offset | js/app.js:181 | the in-segment offset is non-negative and below one segment |
| Wheel.Duration | js/app.js:174 | the spin duration lies in `[3000, 5000)` milliseconds |
| Wheel.Target | js/app.js:182 | the target is at least five and less than six turns beyond the current rotation |
| Wheel.Spun | js/app.js:172-182 | a started spin is running from the click's time, with a duration in range and a target five to six turns ahead, and nothing else changes |
| Wheel.SpinWheel | js/app.js:163-186 | a click while spinning or with fewer than two entries changes nothing and reports why; otherwise the spin starts; the state stays valid |
| Wheel.Swept | js/app.js:189-198 | before normalising, a frame's rotation lies between the rotation it starts from and the target, equals that start rotation at the click's instant, and is the target once the duration has elapsed |
| Wheel.LaterFrameGoesFurther | js/app.js:189-198 | computed from the same state, a later frame sweeps the wheel at least as far toward the target |
| Wheel.Advance | js/app.js:189-203 | the frame's rotation is at the swept position on the circle, stays within one turn and below the target, and is the normalised target once the duration has elapsed |
| Wheel.AdvanceMovesForward | js/app.js:189-203 | the frame's rotation plus some whole number of turns is the swept rotation, so it lies between the rotation the frame starts from and the target |
| Wheel.Frame | js/app.js:188-226 | a frame changes only the rotation and the running flag, and sets the rotation to the advanced one; it continues exactly while time remains; the last frame lands on the normalised target and announces the entry under the pointer there, or `NoEntries` for an empty list; the state stays valid |
| Wheel.TargetWinner | js/app.js:176-182 | the winner at the normalised target is the one `s` segments back from the winner at the current rotation plus the offset |
| Wheel.TargetWinnerFromRest | js/app.js:176-182 | from rotation 0 with a non-zero offset the spin stops on segment `n - 1 - s`, so each segment draw gives a different winner |
| Wheel.FinalFrame | js/app.js:208-224 | the frame that ends a spin with entries left announces the entry under the pointer at the normalised target |
| Wheel.StopsOnTarget | js/app.js:182-221 | a spin aimed at a target built from `s` and `o` for `n` segments, with `n` still the entry count when it ends, ends by announcing the entry `s` segments back from the winner at the current rotation plus `o` |
| Wheel.SpinDecidesWinner | js/app.js:163-182 | a click that starts a spin records the click's time and a duration in range, keeps the list, and sets a target whose normalised position puts under the pointer the entry `s` segments back from the one at the current rotation plus the offset |

## Left out

- Canvas drawing (`drawWheel`): rendering only. The model keeps its geometry, segment `i` drawn from `rotation + i * segmentAngle`, in `Rotation.UnderPointer`.
- DOM lookups, element creation and `addDeleteButtonsToEntries` for `<li>` elements present in the HTML: the list starts empty in `Wheel.Init`, and every item carries its button label because the page adds one to each.
- `alert`, `showResult` and `closePopup`: presentation only. They appear as the outcomes `Full`, `TooFew` and `Won`.
- `requestAnimationFrame`: frames are separate calls of `Wheel.Frame`, and the order in which the browser schedules them is not modelled.
- `Date.now()` and `Math.random()`: both are parameters.
- IEEE-754 rounding: angles and durations are exact reals. `TwoPi` is the exact value of the double `2 * Math.PI`, but the page's rounded sums, products and `Math.pow` are computed exactly.
- UTF-16: strings are sequences of Unicode scalar values. Every character `trim` removes, and `×`, is a single code unit, so this makes no difference to the operations modelled.
- EntryList.RoundTrip: holds only for texts without a `×` of their own. `EntryList.RoundTripIff` and `EntryList.MarkInTextIsLost` state exactly what happens otherwise.
- Wheel.AddEntry: the promise that `getEntries` gains the trimmed text is stated for input without a `×`, for the same reason.
- EntryList.AddThenRead: stated for input without a `×`, for the same reason.
- EntryList.FillInOrder: stated for inputs without a `×`, for the same reason.
- Wheel.Frame: it keeps the state valid only when the clock has not gone back before the spin's start. With a negative elapsed time the eased fraction is negative, and the rotation can move below 0.
- Wheel.SpinDecidesWinner: it states the winner through the spin's target. `Wheel.StopsOnTarget` and `Wheel.FinalFrame` carry it to the last frame, together with the fact that `Wheel.Frame` changes only the rotation and the running flag. This holds only when no entry is added or deleted during the spin.
- Edits during a spin: `addEntry` and the delete buttons have no `spinning` guard, and the last frame reads `getEntries()` afresh. An add or a delete mid-spin therefore changes the segment count `n`, and with it the winner, even though the target stays the same. No lemma states which entry wins in that case; `Wheel.Frame` alone describes that last frame, using the entry list current at that time.
- The crash when every entry is deleted mid-spin is reported as `NoEntries` and not modelled as an exception.
