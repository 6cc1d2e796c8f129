# Follower counter and banner avatars, modelled in Dafny

The bot keeps a Twitter profile up to date. Its location field shows the
follower count as a progress bar between two round numbers, e.g.
`12k 🟩🟨⬜️⬜️⬜️ 13k followers`. Its banner shows the latest followers'
thumbnails, stacked in one column.

This project models the arithmetic and text behind both:

- `Checkpoints` (`checkpoints.dfy`) covers `abbreviateInt`,
  `previousCheckpoint` and `nextCheckpoint`. A count is written as its
  leading group of one to three digits plus `k`, `M` or `B`. It lies between
  two checkpoints: below 1000 these are the hundreds; from 1000 up they are
  the multiples of `10^unit`.
- `Progress` (`progress.dfy`) covers `getFollowersProgress`. The bar shows
  green squares for the whole fifths of the bracket already covered, a
  yellow square for a fifth begun, and white squares as padding.
- `Avatars` (`avatars.dfy`) covers the records built for the banner
  composer: which thumbnail file, and how far from the top and left. It also
  covers their collection as the concurrent thumbnail jobs finish.
- `JsText` (`js_text.dfy`) holds the JavaScript semantics the code relies on:
  - strings are sequences of UTF-16 code units, so `length`, `padEnd` and
    `repeat` count code units and an emoji square is two of them
  - `toString` of a non-negative integer is its plain decimal text
- `Arithmetic` (`arithmetic.dfy`) holds the facts about products, floored
  quotients and remainders that the proofs lean on. `Options` (`options.dfy`)
  holds the optional result of reading text back.

Follower counts are modelled as natural numbers. JavaScript computes them in
doubles, which the model matches for every integer up to 2^53 − 1. There
the checkpoints and their difference are exact. The quotients of
`getFollowersProgress` are rounded doubles, but a quotient's floor and its
whole-number test (`% 1 !== 0`) agree with exact arithmetic. Any nonzero
fractional part is at least 1/step, far above the rounding error. The model
states them as an exact floored quotient and an exact remainder.

Properties proved:
- the checkpoints bracket the count (`prev <= n < next`)
- they are the greatest and least round numbers around it
- `previousCheckpoint` is idempotent and fixes exactly the round numbers
- a label reads back as its checkpoint
- the bar is always five squares, which is ten code units
- the whole location text reads back as the two checkpoints and the squares
- each thumbnail's offsets depend on its list position and not on when its
  job finished

Two points one might expect otherwise:
- The bar is padded to 10 code units. That is five squares, each emoji being
  a surrogate pair (and the white square also carries a variation selector),
  not ten squares.
- The number of green squares is never clamped. It is at most 4 because the
  count stays below the next checkpoint, so all five squares are green for
  no count.

## Model

| member | source | states |
|---|---|---|
| JsText.DecimalString | index.js:24 | `toString` of a count is one or more decimal digits with no leading zero |
| JsText.DecimalRoundTrip | index.js:122 | reading the decimal text of a number back gives the number (`parseInt` of a printed offset) |
| JsText.NumDigitsBounds | index.js:26 | `numOfDigits` is the number `d` with `10^(d-1) <= n < 10^d` |
| JsText.Repeat | index.js:76 | `s.repeat(k)` is `k` times as long as `s` |
| JsText.RepeatAt | index.js:76 | each code unit of `s.repeat(k)` is the matching code unit of `s` |
| JsText.FillerPrefix | index.js:78 | the padding `padEnd` appends: `len` code units, the unit at `i` being the filler's unit at `i` modulo the filler length |
| JsText.PadEnd | index.js:78 | `padEnd` keeps the string as its prefix; unless it is already long enough or the filler is empty, it reaches the target length with copies of the filler, the last one cut short |
| JsText.PadEndWhole | index.js:78 | padding by a whole number of fillers appends exactly `filler.repeat(k)` |
| JsText.EncodeChar | index.js:76-78 | a character outside the Basic Multilingual Plane becomes a surrogate pair that decodes back to it; others a single code unit |
| JsText.Utf16Append | index.js:80 | the UTF-16 text of a concatenation is the concatenation of the UTF-16 texts |
| Checkpoints.LeadWidth | index.js:27 | the leading width (`numOfDigits % 3`, or 3 when that is 0) is 1 to 3 and leaves a multiple of 3 digits below the leading group |
| Checkpoints.Unit | index.js:27 | the unit is a multiple of 3 |
| Checkpoints.LeadingGroupWidth | index.js:44-46 | the leading group has `LeadWidth` digits, so `numOfDigits - num.toString().length` is the unit; it is 1 to 999 for a positive count; the unit is positive exactly from 1000 up |
| Checkpoints.UnitFrom1000 | index.js:24 | counts from 1000 up are exactly those of four or more digits |
| Checkpoints.CheckpointsOfGroup | index.js:43-46 | from 1000 up, the previous and next checkpoints are the leading group and its successor times `10^unit`, around the count |
| Checkpoints.Bracketing | index.js:38-64 | `prev <= n < next`, exactly one granularity apart (100 below 1000, else `10^unit` with the unit a positive multiple of 3), both multiples of 100 |
| Checkpoints.SameBracket | index.js:38-64 | every count between `prev(n)` and `next(n)` has the same checkpoints, unit and leading group |
| Checkpoints.CheckpointIsFixedPoint | index.js:38-47 | a count is a round number at its own magnitude exactly when `previousCheckpoint` returns it unchanged |
| Checkpoints.PreviousIsGreatestCheckpoint | index.js:38-47 | `previousCheckpoint(n)` is a round number, at most `n`, and no round number lies strictly between it and `n` |
| Checkpoints.NextIsLeastCheckpoint | index.js:55-64 | `nextCheckpoint(n)` is a round number above `n`, and no round number lies strictly between `n` and it |
| Checkpoints.NextIsCheckpoint | index.js:55-64 | `nextCheckpoint(n)` is itself a round number, including when the group rolls over to 1000 |
| Checkpoints.PreviousIdempotent | index.js:38-47 | `previousCheckpoint(previousCheckpoint(n)) == previousCheckpoint(n)` |
| Checkpoints.AbbreviateConstantOnBracket | index.js:23-47 | from 1000 up, all counts of one bracket have the same label |
| Checkpoints.AbbreviatePrevious | index.js:23-47 | from 1000 up, `abbreviateInt(previousCheckpoint(n)) == abbreviateInt(n)` |
| Checkpoints.SuffixLetters | index.js:29 | units 3, 6 and 9 select the letters `k`, `M` and `B` |
| Checkpoints.UnitByMagnitude | index.js:26-27 | below 10^12 the unit is 3, 6 or 9 according to whether the count is below 10^6, below 10^9, or neither |
| Checkpoints.AbbreviateByMagnitude | index.js:23-30 | from 1000 to 10^12 the label is the count divided by 10^3, 10^6 or 10^9 (one to three digits) followed by `k`, `M` or `B` |
| Checkpoints.AbbreviateFromTrillions | index.js:29 | from 10^12 up the letter index is past `" kMB"` and the label is `NaN` |
| Checkpoints.ReadAbbreviationBack | index.js:23-30 | below 10^12 a label reads back as the count itself below 1000 and as `previousCheckpoint(n)` from 1000 up |
| Checkpoints.CheckpointLabelExact | index.js:23-30 | below 10^12 the label of a round number reads back as that number exactly |
| Checkpoints.DocumentedExamples | index.js:33-50 | 120 lies between 100 and 200, 12732 between 12000 and 13000 |
| Checkpoints.DocumentedLabels | index.js:23-30 | 12000 and 13000 are written `12k` and `13k` |
| Progress.SquaresAreUtf16 | index.js:76-78 | the green, yellow and white squares are two code units each |
| Progress.StepExact | index.js:76-77 | `(next - prev) / 5` is a whole number, at least 20, and five of them make the bracket |
| Progress.FifthOfGranularity | index.js:76-77 | the bracket width is a multiple of 5 whose fifth is at least 20 |
| Progress.FilledBounds | index.js:76 | the green count is the number of whole fifths covered, at most 4; with the yellow square at most 5 squares are coloured |
| Progress.PartialIff | index.js:77 | there is no yellow square exactly when the count sits on a fifth; a count is a round number exactly when it equals `prev`, and then no square is coloured |
| Progress.BarSquaresRuns | index.js:76-78 | the five squares are a run of green, the yellow one if any, then white |
| Progress.BarIsFiveSquares | index.js:76-78 | the bar is exactly the rendering of five squares, 10 code units; square `i` is green exactly when `i` is below the green count; a yellow square appears exactly when a fifth is begun |
| Progress.ReadBarRender | index.js:78 | a rendered row of squares reads back as those squares |
| Progress.AbbreviationHasNoSpace | index.js:80 | below 10^12 a label contains no space, so the location text splits unambiguously |
| Progress.FirstSpace | index.js:80 | the first space of a text, or its length when there is none |
| Progress.ReadLocationFields | index.js:80 | `a + " " + bar + " " + b + " followers"` reads back field by field when `a` has no space and the bar is 10 code units |
| Progress.ReadFollowersProgress | index.js:72-81 | when the next checkpoint is below 10^12, the location text reads back as the previous checkpoint, the five squares and the next checkpoint |
| Avatars.AvatarPlacement | index.js:120-124 | the follower at list position `i` is placed `126 + 100 * i` from the top and 1315 from the left, with its thumbnail file `images/avatars/<id>.png` |
| Avatars.AvatarDirectoryIsUtf16 | index.js:121 | the directory of the thumbnail path is the text `images/avatars/` |
| Avatars.PngExtensionIsUtf16 | index.js:121 | the extension of the thumbnail path is the text `.png` |
| Avatars.ThumbnailsDisjoint | index.js:122 | two different positions are at least 83 pixels apart vertically, the thumbnail size, so the thumbnails never overlap |
| Avatars.CollectAvatars | index.js:110-127 | whatever order the thumbnail jobs finish in, `image_data` ends up with one record per follower (record `k` is that of the `k`-th job to finish), holding exactly the list-order records; the join resolves exactly when there was at least one follower |
| Avatars.PermutedPlacements | index.js:115-127 | records taken in any completion order are exactly the list-order records |

## Left out

- Twitter API calls (`usersShow`, `accountUpdateProfile`, `followersList`, `accountUpdateProfileBanner`): network I/O. The count and the follower ids are parameters.
- `process_image` (downloading, resizing to 83×83, rounding, writing PNG files): image processing and file I/O. Only its output size is used, in `Avatars.ThumbnailSize`.
- `draw_image`, `upload_banner` and `delete_files`: image composition, file system and network I/O.
- The `setInterval` scheduler, `dotenv` configuration and the top-level `async`/`await` flow: I/O and timing. The promise join is modelled only as the sequence in which the `.then` callbacks run, `Avatars.CollectAvatars`.
- `.catch(e => throw e)` (index.js:128) is not valid JavaScript: `throw` is a statement and cannot be an arrow function's expression body, so the file as written would not load. The model follows the evident intent, the `.then` callbacks, in `Avatars.CollectAvatars`.
- Rejected promises and thrown errors: the error paths are I/O failures that are not modelled.
- Negative, fractional and non-numeric counts: follower counts from the API are non-negative integers.
- Counts above 2^53 − 1, where doubles lose precision, and above 10^21, where `toString` switches to exponent notation: unbounded naturals stand in for doubles.
- Progress.ReadFollowersProgress: proved only when the next checkpoint is below 10^12. From there on the labels are `NaN` (`Checkpoints.AbbreviateFromTrillions`) and do not read back.
- Checkpoints.ReadAbbreviationBack: proved only below 10^12, for the same reason.
- Follower ids: modelled as their decimal text (`JsString`). The JSON number behind `follower.id` may exceed 2^53 and be rounded by the API client, which is outside this model.
