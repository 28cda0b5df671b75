# Shift-row pass of the CEMS announcement bot

The bot reads the rows of a shift schedule from a spreadsheet and makes one
pass over them, row by row, in sheet order (`index.js`). Each row is a list
of text cells addressed through a fixed column table: event 0, date 1,
time 2, location 3, first responder (`R1`) 5, approval 7, announced marker 11.
For each row the pass does one of three things:

- **Already announced.** Cell 11 is `Yes!`. The row is skipped and not touched.
- **Confirmation.** Otherwise the row is first padded with `''` cells up to
  cell 11. If its approval cell is not `''`, the marker is set to `Yes!` in
  place and the row goes on the list of confirmations to announce.
- **Open shift.** If the approval cell is `''`, the row goes on the list of
  open shifts when three things hold: its date cell parses as `MM/DD/YYYY`,
  the day lies inside an inclusive window, and its `R1` cell is not `''`.

After the pass, the marker cell of every row, in row order, forms the
one-column table that `updateSheets` (index.js:171-189) writes back.

The project has four modules:

- `Wrappers` (`wrappers.dfy`): the `Option` type.
- `Dates` (`dates.dfy`): days compared at day resolution, and the date parse.
- `ShiftRows` (`shift_rows.dfy`): the row layout, and the functions that
  specify what the pass does to one row and to the whole sheet, with lemmas.
- `Pass` (`shift_pass.dfy`): the pass itself. The class `ShiftPass` holds the
  rows and the two lists and changes them in place. `GetShifts` runs the pass
  on a fresh object.

The two lists hold the row objects themselves. The model records each entry
as the index of its row in `rows`, so an entry always denotes the row as the
pass left it.

The window is a parameter (`Window(first, last)`). `processShiftRow` computes
a window from the current time and then overwrites it with the fixed days
September 5 to September 14, 2019. That fixed window is `SourceWindow`.

The approval and `R1` tests compare with `!== ''` and do not trim
(index.js:156, 164), so a cell holding only a space counts as non-empty.

## Model

| member | source | states |
|---|---|---|
| Dates.ParseDate | index.js:162 | A parsed date is a real calendar day (month 1 to 12, day within its month, leap years included), taken from text of 8 to 10 characters ending in `/` and four digits; `None` stands for moment's "Invalid date" |
| Dates.ParseDateFields | index.js:162 | For every one- or two-digit month field, one- or two-digit day field and four-digit year, the text `month/day/year` parses to exactly the day those fields spell when it is a real day, and to `None` when it is not |
| Dates.ParseDateOnlyFields | index.js:162 | Every text that parses has that form, so the two lemmas together fix the parse on every input |
| Dates.ParseFormat | index.js:162 | Every valid day written as `MM/DD/YYYY` parses back to that same day |
| Dates.ParseShiftDate | index.js:162 | `09/10/2019` parses to September 10, 2019 |
| Dates.ParseImpossibleDay | index.js:162-164 | `13/45/2019` does not parse, so it is an invalid date |
| Dates.ParseWindowStart | index.js:151 | `9/5/2019`, the fixed first day, parses to September 5, 2019 |
| Dates.ParseWindowEnd | index.js:152 | `9/14/2019`, the fixed last day, parses to September 14, 2019 |
| Dates.DateLeTotalOrder | index.js:164 | Day comparison is reflexive, total, antisymmetric and transitive |
| ShiftRows.Classify | index.js:146-167 | The row's outcome: already announced exactly when the row carries the marker (and processing leaves it unchanged); a confirmation exactly when processing newly gives it the marker; an open shift exactly when it was not announced, processing merely pads it (its approval cell is `''`), its padded date cell parses to a day in the window, and its padded `R1` cell is not `''` |
| ShiftRows.Announces | index.js:156-159 | The confirmation list holds every confirmation row and only those, each once, in row order |
| ShiftRows.Shifts | index.js:160-166 | The open-shift list holds every open-shift row and only those, each once, in row order |
| ShiftRows.Pad | index.js:154 | Padding gives a row of length at least 12 that starts with the original row and adds only `''` cells |
| ShiftRows.Step | index.js:144-169 | An announced row is left unchanged. Otherwise the new row has length at least 12; every cell except 11 keeps its old value or, when added, is `''`; cell 11 becomes `Yes!` exactly when the approval cell is not `''`, and otherwise keeps its old value (or `''` when it was missing) |
| ShiftRows.AnnouncedRowSkipped | index.js:146 | A row whose cell 11 is `Yes!` is unchanged and goes on neither list |
| ShiftRows.InvalidDateNotOpen | index.js:162-164 | A row whose date cell does not parse is never an open shift |
| ShiftRows.MarkerAfterStep | index.js:156-166 | After processing, a row has a cell 11, and it holds `Yes!` exactly when the row was already announced or just became a confirmation; a row in the open-shift branch (open shift or ignored) keeps its marker cell's old value, or `''` when it had none |
| ShiftRows.StepIdempotent | index.js:146-158 | Processing a row twice leaves it as processing it once did; a new confirmation is skipped the second time, and every other outcome repeats |
| ShiftRows.Picked | index.js:156-167 | A list built over the first `n` rows has at most `n` entries |
| ShiftRows.PickedExactly | index.js:136-167 | A list built over the first `n` rows holds exactly the positions below `n` with its outcome, in increasing order |
| ShiftRows.PassLists | index.js:136-167 | The confirmation list holds exactly the confirmation rows, and the open-shift list exactly the open-shift rows, each in sheet order; no row is in both |
| ShiftRows.PassIdempotent | index.js:136-158 | A second pass over the rows the first pass left changes no row and announces nothing, and it collects the same open shifts |
| ShiftRows.MarkerColumn | index.js:175 | The written-back table has one one-cell row per sheet row, in order, holding that row's cell 11, or undefined when the row has none |
| ShiftRows.MarkerColumnAfterPass | index.js:146-175 | After a pass every entry of the marker column is defined and aligned with its row, and it is `Yes!` exactly for rows that were already announced or became confirmations |
| ShiftRows.SourceWindowParses | index.js:151-152 | The fixed window's two date strings parse to `SourceWindow`'s ends |
| ShiftRows.OpenShiftScenario | index.js:160-166 | An unapproved row dated September 10, 2019 that has a first responder is an open shift of the fixed window |
| ShiftRows.ConfirmationScenario | index.js:154-159 | The same row with an approver is a confirmation; it is padded with `''` and its cell 11 becomes `Yes!` |
| Pass.ShiftPass.constructor | index.js:125-126 | A pass starts on the given rows with both lists empty |
| Pass.ShiftPass.ProcessShiftRow | index.js:144-169 | Only row `i` changes, and it becomes that row processed. `i` is appended to the confirmation list exactly when the row is a confirmation, and to the open-shift list exactly when it is an open shift; otherwise a list is left as it was |
| Pass.ShiftPass.ProcessAll | index.js:136 | Processing every row in order leaves each row processed, and fills the two lists with the confirmations and the open shifts in row order |
| Pass.GetShifts | index.js:124-142 | Returns the processed rows, the confirmations and the open shifts, each list in row order, with no row in both |

## Left out

- OAuth authorization, token files and credentials (`authorize`, `getNewToken`, `fs.readFile`) are left out: they are file and network I/O.
- Nothing in index.js calls `updateSheets`: both calls to it are commented out (index.js:38, 46). The model still gives its table as `MarkerColumn`, but does not claim that a run writes it back.
- The spreadsheet read (`values.get`) and write (`values.update`) are left out: they are network I/O. The rows read are the parameter of `GetShifts`, and the table written is `MarkerColumn`.
- The read's result is assumed to be a list of rows. When the sheet range is empty, the API returns no `values` and `rows.length` throws. That failure is not modelled.
- The console prompt for a new token (`readline`) is left out: it is interactive I/O.
- The window computed from the current time (index.js:148-149) is left out. The code overwrites it at once, and it depends on the clock.
- Dates.ParseDate: moment's forgiving `MM/DD/YYYY` parse is simplified to a strict one. It takes a one- or two-digit month, a one- or two-digit day and a four-digit year, separated by `/` and followed by nothing. Moment also accepts other separators, trailing text and shorter years; those inputs are `None` here.
- The Discord and AWS Lambda handler is left out. It is commented out; its client, hour check and polling are I/O and concurrency.
- The module toggles `live_mode`, `test_time`, `time_check` and `send_msgs` are left out, since index.js never reads them. The `console.log` calls are left out too.
- Confirmation messages, the shift digest and chat-handle resolution are not part of this model; none of that code is in `index.js`.
- Pass.ShiftPass.ProcessAll: it requires both lists to start empty, as `getShifts` creates them (index.js:125-126). It does not describe appending to lists that already hold entries.
- Aliasing: each list entry is the index of its row, not a shared object reference. The model therefore leaves out changes made to a row through a list after the pass; index.js makes none.
