# Priority-queue scheduler of the incremental-reading add-on, in Dafny

This project models the arithmetic and text handling in `ir/pq_schedule.py`,
the priority-queue scheduler of the incremental-reading add-on for Anki. It
covers three things:

- **The interval update in `answer2`.** When a card is answered, the new
  interval is `round(prevInterval * (1 + 1/priority))`, bumped by one if
  rounding left it unchanged. A card without `lastIvl` counts as interval 0.
  The result goes to the collection's scheduler as the spec string
  `str(newInterval) + "!"`.
- **The organiser list in `_updateListItems`.** Card `i` (counting from 1) is
  labelled `str(i).zfill(posWidth)`, where `posWidth` is the number of digits
  of `n + 1` and `n` is the number of cards. Every whitespace run in its title
  becomes a single space (`re.sub(r'\s+', ' ', ...)`).
- **The Python built-ins these rely on.** These are `round` with ties going
  to the even neighbour, `str` of a non-negative integer, `str.zfill`, and the
  characters `\s` matches in a str pattern.

Modules:

- `Wrappers`: `Option`.
- `Numerals`: decimal rendering and reading back, and `zfill`.
- `Rounding`: round-half-even on an exact rational n/d. It is checked against
  a reference definition: the unique integer within one half of n/d that is
  even on a tie.
- `Whitespace`: the whitespace collapse. It is checked against an independent
  description in terms of the text's words (`Words`, `Layout`). Its `IsSpace`
  is the set `str.isspace` accepts: in ASCII the space, 0x09-0x0D and
  0x1C-0x1F (`IsSpaceAscii`), and beyond ASCII U+0085, U+00A0, U+1680,
  U+2000-U+200A, U+2028, U+2029, U+202F, U+205F and U+3000.
- `PqSchedule`: the scheduler itself.

The interval update is written with exact rational arithmetic. For
`prevInterval >= 0` the source's guard (`if newInterval == prevInterval`) is
the same as a guard of the form "keep the rounded value when it is larger,
otherwise use `prevInterval + 1`". `NextIntervalIsMax` proves this.

The source ranks nothing and filters no suspended cards. Lines 141-143 hold
only TODOs for that, and `_getCardInfo` returns cards in the order the
collection's search gives them. The model follows the code: it has no ranking
and no suspended-card filter.

## Model

| member | source | states |
|---|---|---|
| `Rounding.RoundHalfEven` | ir/pq_schedule.py:127 | Python 3 `round` of n/d is n/d rounded down or rounded up: floor(n/d) <= r <= floor(n/d) + 1 |
| `Rounding.RoundHalfEvenIsNearest` | ir/pq_schedule.py:127 | the computed rounding is within one half of n/d and even on an exact tie (Python 3 `round`) |
| `Rounding.NearestTiesEvenUnique` | ir/pq_schedule.py:127 | at most one integer is nearest to n/d with ties to even |
| `Rounding.RoundHalfEvenCharacterized` | ir/pq_schedule.py:127 | RoundHalfEven(n, d) == r holds exactly when r is the nearest integer with ties to even |
| `Rounding.RoundHalfEvenMonotone` | ir/pq_schedule.py:127 | n1/d1 <= n2/d2 implies round(n1/d1) <= round(n2/d2) |
| `PqSchedule.PrevInterval` | ir/pq_schedule.py:124 | a card without `lastIvl` counts as interval 0; otherwise its `lastIvl` is the previous interval |
| `PqSchedule.RawInterval` | ir/pq_schedule.py:127 | the rounded prevInterval * (1 + 1/priority) lies between prevInterval and 2 * prevInterval |
| `PqSchedule.GrowthBounds` | ir/pq_schedule.py:127 | round(prevInterval * (priority + 1) / priority) lies between prevInterval and 2 * prevInterval for every priority >= 1 |
| `PqSchedule.NextInterval` | ir/pq_schedule.py:126-131 | the new interval is strictly greater than the previous one and at most max(2 * prev, prev + 1) |
| `PqSchedule.NextIntervalNewCard` | ir/pq_schedule.py:124-131 | interval 0 becomes 1 whatever the priority |
| `PqSchedule.NextIntervalPriorityOne` | ir/pq_schedule.py:127 | at priority 1 a positive interval doubles exactly |
| `PqSchedule.NextIntervalGuard` | ir/pq_schedule.py:127-131 | rounding leaves prev unchanged (so the +1 guard fires) exactly when prev is the nearest integer, ties to even, to prev * (priority + 1) / priority; the result is prev + 1 exactly when that nearest integer is prev or prev + 1; otherwise the result is that nearest integer |
| `PqSchedule.NextIntervalIsMax` | ir/pq_schedule.py:127-131 | the guarded result equals the rounded value when that is larger than prev, else prev + 1 |
| `PqSchedule.NextIntervalAntitoneInPriority` | ir/pq_schedule.py:126-131 | for a fixed previous interval, a larger priority value never gives a larger new interval |
| `PqSchedule.NextIntervalMonotoneInPrev` | ir/pq_schedule.py:127-131 | for a fixed priority, a longer previous interval never gives a shorter new one |
| `PqSchedule.NextIntervalExamples` | ir/pq_schedule.py:127-135 | P=1,I=10 gives 20; P=10,I=1 gives 2; P=2,I=3 gives 4; P=2,I=5 gives 8; P=5,I=0 gives 1; the spec for P=1,I=10 is "20!" |
| `PqSchedule.DueSpec` | ir/pq_schedule.py:134-135 | the spec is canonical decimal digits followed by exactly one '!' at the end |
| `PqSchedule.DueSpecRoundTrip` | ir/pq_schedule.py:135 | removing the '!' and reading the digits gives back the interval |
| `PqSchedule.DueSpecOfParse` | ir/pq_schedule.py:135 | a spec whose digits have no leading zero is the DueSpec of the number it reads as |
| `PqSchedule.Answer` | ir/pq_schedule.py:120-135 | the string handed to `set_due_date` reads back as exactly NextInterval(priority, PrevInterval(lastIvl)), which is larger than the previous interval; a card without `lastIvl` gets "1!" |
| `PqSchedule.PosWidth` | ir/pq_schedule.py:102 | posWidth is at least one digit |
| `PqSchedule.PosWidthDigits` | ir/pq_schedule.py:102 | posWidth for n cards is the number of decimal digits of n + 1 |
| `PqSchedule.Label` | ir/pq_schedule.py:104 | `str(i).zfill(w)` is max(len(str(i)), w) long, all digits, and reads back as i |
| `PqSchedule.LabelValue` | ir/pq_schedule.py:104 | `str(i).zfill(w)` with w at least the digit count of i is w long, zeros then the digits of i, and reads back as i |
| `PqSchedule.LabelShape` | ir/pq_schedule.py:102-104 | for n cards, label i (1 <= i <= n) is posWidth long, zeros then the digits of i, and reads back as i |
| `PqSchedule.LabelsFit` | ir/pq_schedule.py:102-104 | for n cards, every label 1..n is exactly posWidth long |
| `PqSchedule.UpdateListItems` | ir/pq_schedule.py:99-111 | one entry per card in card order; entry k has label k + 1 of the common width, all digits and reading back as k + 1; its title is the collapsed title |
| `Numerals.Str` | ir/pq_schedule.py:135 | `str(n)` is non-empty, all digits, without a leading zero unless n is 0, and starts with '0' exactly when n is 0 |
| `Numerals.ValueOfStr` | ir/pq_schedule.py:135 | reading back `str(n)` gives n |
| `Numerals.StrOfValue` | ir/pq_schedule.py:135 | writing out the value of a canonical digit string gives the string back |
| `Numerals.StrLengthBounds` | ir/pq_schedule.py:102 | for n >= 1, the digit count k of `str(n)` satisfies 10^(k-1) <= n < 10^k |
| `Numerals.Pow10Monotone` | ir/pq_schedule.py:102 | powers of ten grow strictly with the exponent |
| `Numerals.StrLengthExact` | ir/pq_schedule.py:102 | conversely, every n with 10^(k-1) <= n < 10^k has exactly k digits |
| `Numerals.StrLengthMonotone` | ir/pq_schedule.py:102-104 | a larger number never has fewer digits, so every label fits in posWidth |
| `Numerals.ZFill` | ir/pq_schedule.py:104 | the result of `zfill` is max(len(s), width) long |
| `Numerals.ZFillPads` | ir/pq_schedule.py:104 | `zfill` leaves a long enough string unchanged, otherwise puts only '0's in front of it, after its sign if it has one |
| `Numerals.ZFillUnsigned` | ir/pq_schedule.py:104 | padding a digit string gives zeros followed by the string |
| `Numerals.ValueLeadingZeros` | ir/pq_schedule.py:104 | leading zeros do not change the value of a digit string |
| `Whitespace.IsSpaceAscii` | ir/pq_schedule.py:105 | among ASCII characters `\s` matches exactly space, tab, line feed, vertical tab, form feed, carriage return and 0x1c-0x1f; no other printable character |
| `Whitespace.CollapseWhitespace` | ir/pq_schedule.py:105 | the result is no longer than the input, empty only for empty input, and starts with a space when the input starts with whitespace, otherwise with the input's first character |
| `Whitespace.CollapseShape` | ir/pq_schedule.py:105 | the result contains no whitespace but single spaces, never two spaces in a row, and the same non-whitespace text in the same order |
| `Whitespace.Words` | ir/pq_schedule.py:105 | the words of a text are non-empty runs of non-whitespace characters; a text starting with a non-whitespace character has a first word starting with it |
| `Whitespace.CollapseKeepsWords` | ir/pq_schedule.py:105 | the collapse keeps the text's words, in order |
| `Whitespace.CollapseLayout` | ir/pq_schedule.py:105 | the collapse equals an independent run-by-run description: all-whitespace text becomes one space; otherwise one space for leading whitespace, the words separated by exactly one space, one space for trailing whitespace |
| `Whitespace.CollapseFixesCollapsed` | ir/pq_schedule.py:105 | text that is already collapsed is unchanged |
| `Whitespace.CollapseFixedPoints` | ir/pq_schedule.py:105 | a string is unchanged by the collapse exactly when it is collapsed |
| `Whitespace.CollapseIdempotent` | ir/pq_schedule.py:105 | collapsing twice is the same as collapsing once |

## Left out

- `PqSchedule.NextInterval`: the source computes `1 + 1 / priority` and the product in IEEE double precision. The model uses the exact rational. The two can differ at exact .5 ties when the priority is not a power of two, and for very large intervals.
- `PqSchedule.NextInterval`: priority is required to be at least 1. The source divides by it, so 0 raises `ZeroDivisionError`; negative priorities are not modelled.
- `PqSchedule.Answer`: `lastIvl` is taken as a non-negative whole number of days. A negative `lastIvl` is not modelled.
- Reading the priority (line 121) is not modelled. This covers `getField` on the note and the fallback to `int(prioDefault)` when the field is empty. `getField` is not part of this model, so the priority is taken as a given integer.
- The `set_due_date` call on the collection (line 135) is not modelled; only the spec string passed to it is. `ParseDueSpec` is this model's own reading of a bare "digits!" spec, not the collection's parser, which accepts more forms.
- `_getCardInfo` (lines 140-156) is not modelled. It is a query against the Anki collection; the model takes its result as the `cards` sequence and keeps its record shape as `CardInfo`.
- `strip_html` (line 105) is not modelled. The title is taken as already stripped of HTML.
- The `organizerFormat` template (lines 106-107) is not modelled. It is a user-supplied `str.format` string; the model keeps the label and title it would be filled with.
- `PqSchedule.UpdateListItems` returns the list of entries instead of clearing a `QListWidget` and adding items to it (lines 101, 109-111).
- The Qt dialog in `showDialog`, `_getSelected` and double-click navigation to the browser (lines 57-97, 113-118) are not modelled; they are user interface.
- `changeProfile` and the class fields `_deckId`, `_cardListWidget` and `_settings` (lines 50-55) are not modelled; they are session plumbing.
- The empty `answer` method (lines 137-138) and the unused `SCHEDULE_*` constants (lines 43-46) are not modelled.
- Ranking by priority or interval and skipping suspended cards are not modelled. They exist only as TODOs (lines 141-143).
