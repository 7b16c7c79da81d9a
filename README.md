# Departure board: a Dafny model of the board page's rendering

The board page of the commuter-rail status board polls its server once a
minute. When the poll returns a non-empty batch of train-status records, the
page does two things:

- It sets its three clock labels from the first record's timestamp:
  - the weekday name,
  - a date label,
  - a 12-hour time label.
- It replaces every row of the departures table below the header with one
  row per record, in batch order. Each row has six cells: scheduled time,
  origin, trip, destination, track and status.

This project models that page logic from `static/board.js` and proves what
it promises.

## The modules

| module | file | what it models |
|---|---|---|
| `Numerals` | `numerals.dfy` | JavaScript's decimal text of an integer (`'' + n`), with a parser that reads it back. |
| `TimeFormat` | `time_format.dfy` | `leftPadTwoDigitNumber`, `getFormattedTime`, `getFormattedDate`, `getFormattedDay`, each with a parser for its output. |
| `Fields` | `fields.dfy` | The cell texts `generateTableRow` computes (sanitised fields, the track cell, the status cell). |
| `Markup` | `markup.dfy` | The `<tr>`/`<td class="…">` markup and a reader that takes it apart. |
| `Rows` | `rows.dfy` | `generateTableRow` itself. |
| `DepartureBoard` | `board.dfy` | The success branch of `pollForever`. |

The supporting modules are `Options` (an `Option` type) and `Text`
(character counting and searching).

## Behaviour kept from the code

- **Sanitising.** Every text field has its single quotes stripped and is
  then upper-cased.
- **Track.** A track that is empty after sanitising reads `TBD`.
- **Status.**
  - The lateness in minutes is the floored quotient `lateness / 60`.
  - A status of `DELAYED` or `LATE` with a non-zero minute count reads
    `LATE N MIN`.
  - A negative lateness floors to a negative count, e.g. `LATE -1 MIN`.
- **Date label.** The middle field is the day-of-week index (00..06), not
  the day of the month, because the code calls `getDay`.
- **Padding.** `leftPadTwoDigitNumber` is total. A negative number gets a
  `0` in front of its sign, so -5 gives `0-5`.
- **Time and time zone.** The conversion from an epoch to local calendar
  fields is a parameter `toLocal` (see below).

## The board update

The board is a class, `DepartureBoard.Board`, with four fields: the day
label, the date label, the time label and the table rows (header first).

Its method `ApplyBatch` is proved against the specification function
`Refresh`:

- It keeps the header row.
- It renders the batch in a loop, `RenderRows`, appending one row per record.
- It replaces the labels and the remaining rows.

Lemmas about `Refresh` then state:

- an empty batch is a no-op;
- the rows come in batch order, after the header;
- the labels come from record 0;
- the previous rows are forgotten;
- applying a batch is idempotent.

## Which member models which source function

| source function | Dafny model | its contract is stated by |
|---|---|---|
| `leftPadTwoDigitNumber` | `TimeFormat.LeftPad` | `LeftPad`, `LeftPadTwoDigits` |
| `getFormattedTime` | `TimeFormat.FormatTime` | `ParseFormatTime`, `FormatTimeSuffix`, `FormatTimeCharacters`, `FormatTimeInjective`, the two example lemmas |
| `getFormattedDate` | `TimeFormat.FormatDate` | `ParseFormatDate`, `FormatDateDashes` |
| `getFormattedDay` | `TimeFormat.DayName` | `DayName`, `DayIndexRoundTrip` |
| field sanitising in `generateTableRow` | `Fields.Sanitize` | `Sanitize`, `SanitizeChar`, `SanitizeAppend` and the other `Sanitize…`/`StripQuotes…` lemmas |
| the track cell | `Fields.TrackCell` | `TrackCell`, `TrackCellTbd` |
| the status cell | `Fields.StatusCell`, `Fields.LateMinutes`, `Fields.LateText` | `StatusCell`, `LateMinutes`, `ParseLateTextRoundTrip`, `StatusCellSanitised`, `StatusCellNeverLateZero` |
| `generateTableRow` | `Rows.RenderRow` | `RenderRow`, `RowCells`, `RowCellsClasses`, `RowCellsSanitised` |
| the success branch of `pollForever` | `DepartureBoard.Refresh`, `DepartureBoard.Board.ApplyBatch`, `DepartureBoard.RenderRows` | `ApplyBatch`, `RenderRows` and the `Refresh…` lemmas |

## Model

| member | source | states |
|---|---|---|
| Numerals.NatToString | static/board.js:89 | The decimal text of a natural number is non-empty, all digits, and starts with `0` only for zero. |
| Numerals.ParseNatToString | static/board.js:89 | Reading the decimal text of n back gives n, so the text loses nothing. |
| Numerals.IntToString | static/board.js:89 | The text of an integer is non-empty, and all digits when the integer is non-negative. |
| Numerals.IntToStringCharacters | static/board.js:138 | The text of an integer starts with `-` exactly when it is negative, is digits after that, and holds one `-` for a negative number and none otherwise. |
| Numerals.ParseIntToString | static/board.js:138 | The text of any integer, negative ones included, reads back as that integer. |
| TimeFormat.LeftPad | static/board.js:84-91 | `leftPadTwoDigitNumber` on 0..99 gives two characters that read back as the number. |
| TimeFormat.LeftPadTwoDigits | static/board.js:84-91 | For 0..99 the padded text is exactly two digits, tens then units. It has a leading `0` below 10 and is the plain number from 10 up. |
| TimeFormat.ClockHour | static/board.js:106-111 | The 12-hour clock hour is 1..12 and agrees with `hours % 12`, so hour 0 and hour 12 both show 12. |
| TimeFormat.ParseFormatTime | static/board.js:102-121 | `FormatTime`, the model of `getFormattedTime`: the label `H:MM AM/PM` reads back as exactly the 24-hour hour and minute it was made from. |
| TimeFormat.FormatTimeSuffix | static/board.js:113-118 | The label ends in `AM` exactly when the hour is before noon, and in `PM` exactly when it is noon or later. |
| TimeFormat.FormatTimeCharacters | static/board.js:102-121 | A time label holds only digits, `:`, a space, `A`, `P` and `M`. So it has no quote, no `<` and no lowercase letter. |
| TimeFormat.FormatTimeInjective | static/board.js:102-121 | Two moments with the same time label have the same hour and minute. |
| TimeFormat.FormatTimeMidnightNoon | static/board.js:106-118 | Midnight shows `12:00 AM` and noon shows `12:00 PM`. |
| TimeFormat.FormatTimeAfternoon | static/board.js:106-118 | 13:05 shows `1:05 PM` and 23:59 shows `11:59 PM`. |
| TimeFormat.ParseFormatDate | static/board.js:132-140 | `FormatDate`, the model of `getFormattedDate`: the label reads back as the month index (from the 1-based month), the day-of-week index in the middle field, and the full year. |
| TimeFormat.FormatDateDashes | static/board.js:132-140 | The date label holds two `-` separators, plus a third only when the year is negative. |
| TimeFormat.DayName | static/board.js:150-162 | `getFormattedDay`: each day-of-week index 0..6 (0 is Sunday) names a weekday that maps back to that index, so distinct indices get distinct names. |
| TimeFormat.DayIndexRoundTrip | static/board.js:150-162 | Every weekday name is the name of exactly the index it stands for. |
| Fields.StripQuotes | static/board.js:20 | The result of removing single quotes holds no single quote. |
| Fields.StripQuotesLength | static/board.js:20 | Removing quotes shortens the text by exactly its number of quotes. |
| Fields.StripQuotesKeeps | static/board.js:20 | Every character other than the quote occurs as often after removal as before. |
| Fields.StripQuotesAppend | static/board.js:20 | Removal distributes over concatenation, so the kept characters stay in order. |
| Fields.StripQuotesNoQuote | static/board.js:20 | A text without quotes is unchanged. |
| Fields.StripQuotesKeepsOut | static/board.js:20 | Removal adds no character that was not there before. |
| Fields.ToUpper | static/board.js:20 | Upper-casing keeps the length and leaves no lowercase letter. |
| Fields.ToUpperChars | static/board.js:20 | Upper-casing turns each lowercase letter into its capital and keeps every other character. |
| Fields.Sanitize | static/board.js:20-25 | A sanitised field has no single quote and no lowercase letter. |
| Fields.SanitizeIdempotent | static/board.js:20-25 | Sanitising a sanitised field changes nothing. |
| Fields.SanitizeAppend | static/board.js:20-25 | Sanitising distributes over concatenation, so it works character by character and keeps the order. |
| Fields.SanitizeChar | static/board.js:20 | Per character: a quote is dropped, a lowercase letter becomes the capital in the same alphabet position, and any other character is kept. With `SanitizeAppend` this fixes the sanitised text of every input. |
| Fields.SanitizeEmpty | static/board.js:25-26 | A field sanitises to the empty text exactly when it consists only of quotes, in both directions. |
| Fields.SanitizeNoAngle | static/board.js:20-33 | Sanitising introduces no `<`. |
| Fields.SanitizeExample | static/board.js:20 | `a'b` sanitises to `AB`. |
| Fields.TrackCell | static/board.js:25-28 | The track cell is never empty and is sanitised. |
| Fields.TrackCellTbd | static/board.js:25-28 | The track cell reads `TBD` exactly when the sanitised track is empty or is itself `TBD`. Otherwise it is the sanitised track. |
| Fields.LateMinutes | static/board.js:34 | The minute count is the floor of lateness/60: `60n <= lateness < 60n + 60`, negative lateness included. |
| Fields.ParseLateTextRoundTrip | static/board.js:43 | `LateText`, the rewritten status `LATE N MIN`, reads back as N for every N, negative ones included. |
| Fields.LateTextCharacters | static/board.js:43 | A `LATE N MIN` text has no quote, no `<` and no lowercase letter. |
| Fields.StatusCell | static/board.js:33-44 | The status cell reads `LATE N MIN` (N the floored minutes) exactly when the sanitised status is `DELAYED` or `LATE` and N is non-zero, or the status already said `LATE N MIN`. In every other case it is the sanitised status. |
| Fields.StatusCellSanitised | static/board.js:33-44 | The status cell has no quote and no lowercase letter, and no `<` unless the status had one. |
| Fields.StatusCellNeverLateZero | static/board.js:30-44 | A cell reads `LATE 0 MIN` only when the sanitised status itself said so. The rewrite never produces it (the deliberate zero test). |
| Fields.StatusCellExamples | static/board.js:33-44 | For a `DELAYED` status: 125 s gives `LATE 2 MIN`, 30 s keeps `DELAYED`, -30 s gives `LATE -1 MIN`. |
| Markup.ParseCell | static/board.js:46-49 | Reading a cell consumes input, so the row reader terminates. |
| Markup.ParseCellMarkup | static/board.js:46-49 | `<td class="C">T</td>` followed by anything reads back as the cell (C, T) and exactly what followed, when C has no `"` and T no `<`. |
| Markup.ParseCellsMarkup | static/board.js:46-49 | A run of such cells ending in `</tr>` reads back as the same cells in order. |
| Markup.ParseRowMarkup | static/board.js:46-49 | A `<tr>` row reads back as exactly its cells, in order. |
| Rows.RowCells | static/board.js:46-49 | A row always has six cells. |
| Rows.RowCellsClasses | static/board.js:46-49 | The six cells carry the classes `scheduled-time`, `origin`, `trip`, `destination`, `class`, `status`, in that order. |
| Rows.RowClassesUnquoted | static/board.js:46-49 | No class name holds a double quote. |
| Rows.RowCellsReadable | static/board.js:18-49 | When no field holds a `<`, every cell of the row can be read back unambiguously. |
| Rows.RenderRow | static/board.js:18-52 | `generateTableRow`: when no field holds a `<`, the rendered row reads back as exactly its six cells in order: time, origin, trip, destination, track, status. |
| Rows.RowCellsSanitised | static/board.js:19-44 | Every cell text of a row is free of quotes and lowercase letters. |
| DepartureBoard.RenderAllReadsBack | static/board.js:190-194 | Row i of the rendered batch reads back as the six cells of record i, for every record without a `<`. |
| DepartureBoard.KeptRowsStable | static/board.js:196-197 | Removing all rows but the first, appending rows and removing again leaves the same first row. Idempotence rests on this. |
| DepartureBoard.RefreshEmpty | static/board.js:179 | An empty batch leaves labels and table unchanged. |
| DepartureBoard.RefreshRows | static/board.js:190-197 | `Refresh`, the model of the success callback: after a non-empty batch the table is the old header followed by exactly one rendered row per record, in batch order. |
| DepartureBoard.RefreshLabels | static/board.js:185-188 | The three labels are those of record 0's timestamp: the weekday, date and time read back as that moment's fields. |
| DepartureBoard.RefreshForgetsPrevious | static/board.js:196-197 | After a non-empty batch, nothing of the previous labels or rows beyond the header is left. |
| DepartureBoard.RefreshIdempotent | static/board.js:179-198 | Applying the same batch twice is the same as applying it once, when the table has its header row. |
| DepartureBoard.RefreshWithoutHeader | static/board.js:196-197 | On a table without a header row, the table becomes exactly the rendered rows. The first rendered row is later kept as a header, so a second refresh leaves one row more. |
| DepartureBoard.RenderRows | static/board.js:190-194 | The loop yields one row per record, row i being the render of record i. |
| DepartureBoard.Board.constructor | static/board.js:180-183 | The board starts with the labels and table the page was served with. |
| DepartureBoard.Board.ApplyBatch | static/board.js:179-198 | The board after the success callback is `Refresh` of the board before it. |

## Left out

- The time zone is a parameter. `getDate` (static/board.js:66-72) and the
  local getters of a JavaScript `Date` are the function `toLocal` from an
  epoch in seconds to a `LocalMoment`. The viewer's time zone and calendar
  arithmetic are not modelled. The proofs hold for any such function whose
  fields are in range.
- These are not modelled:
  - the poll itself (`$.post`, the one-minute `setTimeout`);
  - decoding the response (`JSON.parse`);
  - the DOM updates beyond the labels and the list of row strings;
  - the error path of the poll.
- Records are typed: the strings are strings and the numbers are integers.
  JavaScript's coercions of other JSON values are not modelled, and neither
  is a fractional `Lateness` or `ScheduledTime`.
- `ToUpper`: upper-cases ASCII `a`..`z` only. It does not model the Unicode
  case mapping of `toUpperCase` (for example `ß` to `SS`, which changes the
  length).
- `IntToString`: does not model JavaScript's exponent form for numbers of
  magnitude 10^21 and above.
- `RenderRow`: the row is read back only when no field holds a `<`.
  The code escapes nothing, so a field containing markup changes the row's
  structure.
- `RefreshIdempotent`: holds only for a table that has its header row.
  `RefreshWithoutHeader` states what happens otherwise.
- `server.py` and the page template are not part of this model.
