# parse_dates, modelled and verified in Dafny

This project models `parse_dates` from `parsing-dates-earthquakes.py` (lines 110-304).
The function normalises a pandas column of date strings in four stages:

1. **Time stripping** (lines 129-151). When `dateonly` is true, eight replacements are applied in order to the entries
   longer than 10 characters. Six are regular-expression deletions of a trailing time of day. The last two are AM/PM
   texts.
2. **Separator unification** (lines 155-174). If some entry holds `/`, `-` or `.`, the other two of these become `sep`
   across the whole column.
3. **Strict parse** (line 182). Every entry is parsed against the format
   `date_format[:2]+sep+date_format[2:4]+sep+date_format[4:6]`. A failure becomes NaT.
4. **Reconciliation** (lines 183-299).
   - Each NaT row is split on `sep` and checked year-first.
   - An accepted row is rewritten in the order `date_format` names its fields, and the rewritten string is written to
     *every* NaT position.
   - At the end, the NaT positions are parsed again with the same format (line 299), this time without coercion.
   - A ValueError is printed by the handler of lines 301-302, and the call then returns None.

The model is split into modules that follow those stages:

- `Text`: Python's `int()`, `str.split`, `str.replace` and `str.strip` on ASCII text.
- `Regex`: `re.sub(p, '', s)` for fixed-length patterns of character classes.
- `TimeStrip`: stage A, as a specification function and as an in-place method on an array.
- `Separators`: stage B, the same way.
- `Strptime`: the format string of line 182, and the strict parse. The parse follows the regular expressions that
  strptime builds for `%m`, `%d`, `%y` and `%Y`. It tries their alternatives in order, with backtracking, so the first
  match is what counts. It then requires the whole entry to be consumed. It checks the calendar date and pandas'
  timestamp bounds.
- `Reconcile`: one turn of the loop of line 188 (`RowStep`), and the loop as a fold over its steps.
- `ParseDates`:
  - `ParseDatesSpec`, the outcome of a call as a function of the column.
  - `ParseDates`, the method doing the same work on arrays: copy, strip, unify, parse, then loop and write every NaT
    position.
- `Examples`: worked one-entry columns and single rows, for the current year 2026.

A call ends in one of three ways:

- `Returned(cells)`: each cell is `NaT` or `Stamp(date)`.
- `PrintedNone(cause)`: a ValueError was printed, and None was returned.
- `Crashed(error)`: an exception the handler does not catch. This is the TypeError of `len(False)`, an IndexError, or
  the TypeError of concatenating `None`.

## How the code behaves where one might expect otherwise

These follow from the code. The model follows the code.

- **The elif crashes.**
  - Each of the six branches opens with a year-first test (line 195 and its copies).
  - When that test is false, the `elif` evaluates `len(split_date[0]==2)`, which is `len(False)`. This raises a
    TypeError that the handler does not catch.
  - So the month-first and day-first arms (lines 200-209 and their copies) are never reached. The comparison of a
    string with a range at line 206, and the check of `split_date[0]` at line 203, therefore never matter.
  - A row rejected by the year-first test ends the call; the row is not just skipped. `Examples.DayFirstColumnCrashes`
    shows "30/12/1965" under `%d%m%y`: `%y` takes "19" and leaves "65" unconverted, so the strict parse misses it, and
    the year-first test then reads 30 as a year after 26.
- **A wrong field count is not an "unresolvable" row.** A row with two fields that passes the year and month tests
  raises an IndexError at `split_date[2]`, which is not caught (`Reconcile.TwoFieldRowRaises`). Fields after the third
  are ignored.
- **A field that `int()` cannot read ends the call.** Its ValueError is printed, and None is returned
  (`Reconcile.NonNumericFieldRaises`, `ParseDates.ReachedRowRaises`). More generally, the first row whose loop
  step raises decides the call, whatever the skipped or written rows before it did.
- **There is no per-row report of unresolved rows.** A row whose year passes but whose month or day fails is skipped.
  No string is written for it, so its cell stays NaT only if no other row is written. If any row is written, the
  last written date fills every NaT cell, including this one (`ParseDates.NatRowsAgree`). Every other failure ends
  the call.
- **Entries already laid out as a `%y` format are resolved by strptime's own pivot.** strptime reads "65" as 2065,
  because it maps 00-68 to the 2000s. `Examples.TwoDigitYearColumn` shows "03-15-65" becoming 15 March 2065. A
  2-digit year in another position does reach the reconciliation. For example, "65/03/15" under `%m%d%y` fails the
  strict parse and then the year-first test, and so raises the TypeError of the elif.
- **"02/30/1970" with `%m%d%Y` stays NaT.** The strict parse rejects 30 February. The year-first test then reads "02" as
  a year, and "30" fails the month test, so the row is skipped. The result is NaT; there is no "invalid calendar date"
  report.
- **"19700215" ends the call.** The strict parse fails, and the entry has no separator. The loop therefore raises the
  ValueError of line 190, which is printed, and None is returned. The same holds for any unresolved entry without the
  separator that the loop reaches (`ParseDates.ReachedRowWithoutSeparator`).
- **A written row that does not parse ends the call.** When nothing raised and the last written string fails the
  strict parse of line 299, which does not coerce, its ValueError is printed and None is returned
  (`ParseDates.LastWriteFailsReparse`).
- **The last write wins.** Every write goes to all NaT positions. With several reconciled rows, every NaT cell gets the
  date of the last row written.
- **The compact time of line 137 is never deleted whole.**
  - The pattern of line 136 runs first. It deletes the `THHMMSS` of a `THHMMSS.mmmZ` suffix and leaves `.mmmZ` behind
    (`TimeStrip.CompactMillisResidue`).
  - The strict parse then fails on that leftover.
- **An ISO timestamp resolves via the reconciliation.** Take "1975-02-23T02:58:41.000Z" with `%m%d%Y` and `/`.
  1. The time is stripped.
  2. The dashes become slashes, giving "1975/02/23".
  3. The strict parse fails.
  4. The row is rewritten as "02/23/1975", whose parse gives 23 February 1975 (`Examples.TimestampColumn`).

## Model

| member | source | states |
|---|---|---|
| Text.PyInt | parsing-dates-earthquakes.py:195-198 | `int()` of a non-empty string of ASCII digits is its decimal value. It raises (None) on an empty or all-whitespace string, and on any string holding a character that is not a digit, whitespace, a sign or '_' |
| Text.StripKeeps | parsing-dates-earthquakes.py:195-198 | the whitespace stripping `int()` does first keeps every other character, and reduces an all-whitespace string to nothing |
| Text.Split | parsing-dates-earthquakes.py:193 | `val.split(sep)`: no piece holds the separator, joining the pieces gives val back, and there is one piece exactly when val lacks the separator |
| Text.SplitJoin | parsing-dates-earthquakes.py:193 | splitting a string joined from separator-free pieces gives those pieces back |
| Text.ReplaceChar | parsing-dates-earthquakes.py:158 | `str.replace` of one character: same length, each occurrence of a replaced, every other character kept |
| Regex.Sub | parsing-dates-earthquakes.py:133-138 | `re.sub(p, '', s)` never lengthens the entry; its meaning is given by SubNoMatch, SubTrailing and SubLeading |
| Regex.SubNoMatch | parsing-dates-earthquakes.py:133-138 | `re.sub` leaves a text with no match unchanged |
| Regex.SubTrailing | parsing-dates-earthquakes.py:133-138 | `re.sub` deletes a trailing match when no earlier position starts one |
| Regex.SubLeading | parsing-dates-earthquakes.py:133-138 | `re.sub` deletes a leading match and keeps a match-free remainder |
| TimeStrip.Apply | parsing-dates-earthquakes.py:133-151 | one replacement (a regex deletion, a literal replace or a whole-value replace) never lengthens the entry |
| TimeStrip.StripEntry | parsing-dates-earthquakes.py:133-151 | the eight replacements in order never lengthen the entry; CleanInert and TrailingTimeStripped say what they remove |
| TimeStrip.Strippers | parsing-dates-earthquakes.py:132-151 | the eight replacements in source order: six regex deletions, then the two AM/PM texts, which are literal replaces for several long entries and whole-value replaces for one |
| TimeStrip.CountLong | parsing-dates-earthquakes.py:130-132 | the count of entries longer than 10 is positive exactly when some entry is |
| TimeStrip.CountLongCounts | parsing-dates-earthquakes.py:130-142 | the count is the number of entries the mask selects, and it is above 1, the test choosing between lines 132 and 142, exactly when two different entries are long |
| TimeStrip.StripStage | parsing-dates-earthquakes.py:129-151 | stage A keeps the column's length; it changes nothing for `dateonly` false; it leaves entries of at most 10 characters as they are; it never lengthens an entry |
| TimeStrip.TrailingTimeStripped | parsing-dates-earthquakes.py:133-136 | a clean date followed by a time text of any of lines 133-136 is reduced to the date |
| TimeStrip.IsoTimestampExample | parsing-dates-earthquakes.py:133 | "1975-02-23T02:58:41.000Z" is reduced to "1975-02-23" |
| TimeStrip.CompactMillisResidue | parsing-dates-earthquakes.py:136-138 | a compact time with milliseconds and Z loses only `THHMMSS`, because line 136 runs before line 137 |
| TimeStrip.CompactPrefixDeleted | parsing-dates-earthquakes.py:136 | line 136 deletes the compact `THHMMSS` and what is left is clean |
| TimeStrip.CompactNoClockMatch | parsing-dates-earthquakes.py:135 | the `HH:MM:SS` pattern of line 135 never matches a date with a compact time |
| TimeStrip.AmPmStrippersInert | parsing-dates-earthquakes.py:140-141 | the AM/PM replacements of lines 140-141 and 150-151 change no text that lacks '[' |
| TimeStrip.LiteralInert | parsing-dates-earthquakes.py:150-151 | a literal replacement whose text occurs nowhere in the entry changes nothing, and a whole-value replacement of such a text changes nothing either |
| TimeStrip.CleanInert | parsing-dates-earthquakes.py:133-151 | no replacement changes a text that holds no 'T', no whitespace and no '[' |
| TimeStrip.LongMask | parsing-dates-earthquakes.py:130-132 | the mask marks exactly the entries longer than 10, and n is their number |
| TimeStrip.ApplyMasked | parsing-dates-earthquakes.py:133 | one masked assignment replaces the masked entries and keeps the others |
| TimeStrip.ApplyAllMasked | parsing-dates-earthquakes.py:133-141 | the replacements applied in order through the mask |
| TimeStrip.StripLong | parsing-dates-earthquakes.py:132-151 | the in-place replacements leave the array equal to StripStage of its old contents |
| TimeStrip.StripTimes | parsing-dates-earthquakes.py:129-151 | stage A in place: the array ends as StripStage of its old contents |
| Separators.ReplaceInColumn | parsing-dates-earthquakes.py:158 | `col.str.replace(a, b)` replaces in every entry and keeps the length |
| Separators.ReplaceIfPresent | parsing-dates-earthquakes.py:157-160 | one guarded step keeps the length of the column and of every entry |
| Separators.UnifyStage | parsing-dates-earthquakes.py:155-174 | stage B keeps the length of the column and of every entry |
| Separators.ReplaceIfPresentIsReplace | parsing-dates-earthquakes.py:157-160 | the `any()` guard only saves work: the guarded replacement equals the unguarded one |
| Separators.UnifyRewritesSeparators | parsing-dates-earthquakes.py:155-170 | when some entry holds a separator, every `/`, `-` or `.` becomes sep, every other character is kept, and no entry keeps either other separator |
| Separators.UnifyLeavesColumn | parsing-dates-earthquakes.py:171-174 | a column with no separator, or a sep outside the three, is left unchanged |
| Separators.ColumnContains | parsing-dates-earthquakes.py:155 | the `find(...) != -1).any()` test is true exactly when some entry holds the character |
| Separators.ReplaceColumn | parsing-dates-earthquakes.py:158 | the in-place replacement equals ReplaceInColumn of the old contents |
| Separators.ReplaceColumnIfPresent | parsing-dates-earthquakes.py:157-158 | one guarded step in place |
| Separators.UnifySeparators | parsing-dates-earthquakes.py:155-174 | stage B in place: the array ends as UnifyStage of its old contents |
| Strptime.Code | parsing-dates-earthquakes.py:118 | each of the six documented formats is three `%`-directives |
| Strptime.FormatString | parsing-dates-earthquakes.py:182 | the format is six characters plus the separator twice |
| Strptime.Tokens | parsing-dates-earthquakes.py:182 | strptime's reading of a format: never more tokens than characters, and a format without '%' is all literal characters |
| Strptime.Alternatives | parsing-dates-earthquakes.py:182 | each directive has at most five non-empty alternatives, in the order strptime's regular expression tries them |
| Strptime.FormatTokens | parsing-dates-earthquakes.py:182 | the format reads as the three directives of date_format, with the separator between each pair |
| Strptime.FormatExample | parsing-dates-earthquakes.py:182 | `%m%d%Y` with `/` gives `%m/%d/%Y` |
| Strptime.MatchTokens | parsing-dates-earthquakes.py:182 | a match captures one field per directive and ends inside the entry |
| Strptime.MonthMatches | parsing-dates-earthquakes.py:182 | a two-digit month 01-12 is captured whole by `%m` |
| Strptime.DayMatches | parsing-dates-earthquakes.py:182 | a two-digit day 01-31 is captured whole by `%d` |
| Strptime.LowDayMatches | parsing-dates-earthquakes.py:182 | a day below 30 is captured whole from the second alternative on |
| Strptime.CanonicalFieldMatches | parsing-dates-earthquakes.py:182 | every canonical field is captured whole, whatever follows |
| Strptime.Build | parsing-dates-earthquakes.py:182 | a date component that no directive sets keeps strptime's default of 1900-01-01 |
| Strptime.DaysInMonth | parsing-dates-earthquakes.py:182 | a month has 28 to 31 days, and 29 exactly for February of a Gregorian leap year |
| Strptime.ValidDate | parsing-dates-earthquakes.py:182 | a valid date has a month in 1-12 and a day in 1-31, at most 29 in February |
| Strptime.InTimestampRange | parsing-dates-earthquakes.py:182 | a date pandas can hold lies in the years 1677-2262 |
| Strptime.StrictParse | parsing-dates-earthquakes.py:182 | a date is returned only when the first match of the format consumes the whole entry and the date is valid and in pandas' range; CanonicalParses gives the converse for entries in the format's layout |
| Strptime.BuildThree | parsing-dates-earthquakes.py:182 | three captured fields are stored one after another onto 1900-01-01 |
| Strptime.DirectiveCodesOfFormat | parsing-dates-earthquakes.py:182 | the directives of the format are date_format's codes, in order |
| Strptime.LastFieldMatches | parsing-dates-earthquakes.py:182 | the last canonical field matches up to the end of the entry |
| Strptime.AdjacentFieldsMatch | parsing-dates-earthquakes.py:182 | with an empty sep, three canonical fields are matched whole |
| Strptime.SeparatedFieldsMatch | parsing-dates-earthquakes.py:182 | with a one-character sep, three canonical fields are matched whole |
| Strptime.SeparatedFieldsPrefix | parsing-dates-earthquakes.py:182 | followed by more text, the same fields are matched and the match ends where they end |
| Strptime.UnconvertedDataRemains | parsing-dates-earthquakes.py:182 | canonical fields joined by sep and followed by more text fail the strict parse (unconverted data remains), so the entry becomes NaT |
| Strptime.CanonicalParses | parsing-dates-earthquakes.py:182 | canonical fields in the order of date_format, joined by sep, parse to the date they name exactly when that date exists and is in pandas' range, and to NaT otherwise |
| Reconcile.FieldInRange | parsing-dates-earthquakes.py:197-198 | true exactly for a field of the given length whose `int()` lies in the range; None exactly when the length matches and `int()` raises |
| Reconcile.YearFirst | parsing-dates-earthquakes.py:195-196 | the year-first test holds exactly for a 2-character field whose `int()` is in [0, yy] or a 4-character field whose `int()` is in [1945, current year]; it raises (None) exactly when the field has 2 or 4 characters and `int()` rejects it |
| Reconcile.Reassemble | parsing-dates-earthquakes.py:199-298 | the written string has the month, the day, two separators and a year of the width the target format asks for (4 for `%Y`, 2 for `%y`); ReassembleFollowsFormat gives the order |
| Reconcile.RowStep | parsing-dates-earthquakes.py:189-298 | line 190's ValueError is raised exactly when sep is not a character of the entry. The elif's TypeError is raised exactly when the year-first test is false. A row is skipped only after its year passed, and an IndexError only for a two-field row. A written text has 8 or 10 characters as the target's year is 2 or 4 digits |
| Reconcile.NonNumericFieldRaises | parsing-dates-earthquakes.py:195-198 | a year, month or day field that `int()` cannot read, reached after the tests before it passed, raises the ValueError that the handler prints |
| Reconcile.TwoFieldRowRaises | parsing-dates-earthquakes.py:197-198 | a two-field row whose year and month pass raises the uncaught IndexError of `split_date[2]` |
| Reconcile.Next | parsing-dates-earthquakes.py:188-190 | one turn of the loop: a stopped loop stays stopped, it stops exactly when the step raises, and a skipped row changes nothing |
| Reconcile.Fold | parsing-dates-earthquakes.py:188 | the loop over the NaT rows, which is `Run` over their steps, runs to the end exactly when no row's step raises |
| Reconcile.ShortYear | parsing-dates-earthquakes.py:199 | the 2-digit year written back is the last two characters of the year field |
| Reconcile.LongYear | parsing-dates-earthquakes.py:215-216 | the 4-digit year written back has four characters and ends with the last two of the year field |
| Reconcile.ReassembleFollowsFormat | parsing-dates-earthquakes.py:199-298 | the row is written in the order date_format names its fields, with sep between them |
| Reconcile.PivotAlwaysTwenty | parsing-dates-earthquakes.py:216 | for a current year in 2000-2045 the '19' arm of the pivot is dead: an accepted 2-digit year is written as '20' + yy |
| Reconcile.SplitRow | parsing-dates-earthquakes.py:193 | a row of three separator-free fields splits into those fields |
| Reconcile.DigitFieldInRange | parsing-dates-earthquakes.py:197-198 | on a digit field the range test is decided by its value |
| Reconcile.DigitRowStep | parsing-dates-earthquakes.py:189-298 | on a row of three digit fields, the loop body writes exactly when the year, month and day tests hold. It skips exactly when the year test holds and the month or day test fails. It raises the uncaught TypeError of the elif exactly when the year test fails. A written text is the reassembled row |
| Reconcile.WrittenRowParses | parsing-dates-earthquakes.py:299 | a written row parses at line 299 to (year as rewritten, month, day) exactly when that date exists and is in range |
| Reconcile.LongYearDigits | parsing-dates-earthquakes.py:215-216 | the 4-digit year written back is all digits, and reads as the 4-digit year itself, as 1900 + yy for yy > 45, or as 2000 + yy otherwise |
| Reconcile.AssignSlot | parsing-dates-earthquakes.py:299 | storing one written field sets the date component its directive names |
| Reconcile.BuildFields | parsing-dates-earthquakes.py:299 | the date built from a written row is (year as rewritten, month, day) |
| Reconcile.Steps | parsing-dates-earthquakes.py:188 | one loop step per NaT row, in index order |
| Reconcile.RunStopsAtFirstFailure | parsing-dates-earthquakes.py:188-190 | the loop stops exactly when some step raises, and then with the exception of the first step that raises |
| Reconcile.RunLastWriteWins | parsing-dates-earthquakes.py:199-298 | when the loop runs to the end, the pending string is the one of the last writing step, and none is pending exactly when no step writes |
| ParseDates.SepText | parsing-dates-earthquakes.py:182 | the separator text is the character of a one-character sep and empty otherwise |
| ParseDates.StrictColumn | parsing-dates-earthquakes.py:182 | each cell is the strict parse of its entry, a failure coerced to NaT |
| ParseDates.NatPositions | parsing-dates-earthquakes.py:184-185 | every listed position is inside the column |
| ParseDates.NatPositionsExact | parsing-dates-earthquakes.py:184-185 | the positions listed are exactly the NaT cells, in increasing order |
| ParseDates.Prepared | parsing-dates-earthquakes.py:129-174 | stages A and B keep the column's length and never lengthen an entry, and an entry that stage A leaves alone keeps its length |
| ParseDates.PendingCells | parsing-dates-earthquakes.py:199-298 | after the loop, every NaT position holds the pending string when one was written, and every other cell is as the strict parse left it |
| ParseDates.Settle | parsing-dates-earthquakes.py:199 | `final[nat_indices] = c` sets exactly the listed positions |
| ParseDates.Conclude | parsing-dates-earthquakes.py:299-302 | a ValueError raised in the loop is printed and None returned, and any other exception leaves the call. If nothing raised, a pending string that fails the strict parse of line 299 gives its printed ValueError, and with nothing pending the column is returned as parsed. A returned column keeps the length |
| ParseDates.ParseDatesSpec | parsing-dates-earthquakes.py:127-302 | a returned column has one cell per entry |
| ParseDates.ConcludeCells | parsing-dates-earthquakes.py:183-186 | the returned column keeps the resolved cells, and all NaT positions get one cell that is not a string |
| ParseDates.StrictColumnNoText | parsing-dates-earthquakes.py:182-184 | the strict parse yields no strings, and NaT exactly where the parse fails |
| ParseDates.ResolvedRowsKept | parsing-dates-earthquakes.py:183-186 | a row the strict parse resolved keeps that date in a returned column |
| ParseDates.NatRowsAgree | parsing-dates-earthquakes.py:199-299 | every row the strict parse left as NaT ends with the same cell, which is not a string |
| ParseDates.LastWritePending | parsing-dates-earthquakes.py:188-298 | when no step raises, the string pending after the loop is the text of the last writing step |
| ParseDates.ConcludeLastWrite | parsing-dates-earthquakes.py:299 | if the last write parses to d and nothing raised, every NaT position becomes d |
| ParseDates.LastWrittenRowWins | parsing-dates-earthquakes.py:188-299 | if no step raises and the last writing row's text parses to d, the call returns d at every NaT position |
| ParseDates.LastWriteFailsReparse | parsing-dates-earthquakes.py:299-302 | if no step raises and the last writing row's text fails the strict parse of line 299, the call prints that ValueError and returns None |
| ParseDates.ReachedRowRaises | parsing-dates-earthquakes.py:188-302 | when the loop body raises on an unresolved row and on no unresolved row before it, that exception decides the call: a ValueError is printed and None returned, any other exception leaves the call |
| ParseDates.ReachedRowWithoutSeparator | parsing-dates-earthquakes.py:189-190 | an unresolved entry without sep, or any unresolved entry when sep is empty, reached by the loop without an earlier raise, ends the call with the printed ValueError naming that entry and its index |
| ParseDates.FailureStopsLoop | parsing-dates-earthquakes.py:188-190 | the loop stops with the exception of its first raising step |
| ParseDates.ExceptionsThatEscape | parsing-dates-earthquakes.py:301-302 | sep=None raises the uncaught TypeError of line 182; no outcome is a ValueError crash |
| ParseDates.CopyColumn | parsing-dates-earthquakes.py:127 | the working copy is a fresh array with the caller's entries |
| ParseDates.StrictParseColumn | parsing-dates-earthquakes.py:182 | a fresh datetime column equal to StrictColumn of the working copy |
| ParseDates.NatIndices | parsing-dates-earthquakes.py:184-185 | the NaT positions found by the scan are NatPositions of the column |
| ParseDates.WriteAll | parsing-dates-earthquakes.py:199 | writing to every NaT position leaves the array equal to Settle of its old contents |
| ParseDates.RunAfterStop | parsing-dates-earthquakes.py:190 | once the loop has raised, later rows change nothing |
| ParseDates.ReconcileRows | parsing-dates-earthquakes.py:188-298 | the loop ends in the state of the fold over its steps, and every NaT cell holds the last written string |
| ParseDates.ParseDates | parsing-dates-earthquakes.py:110-302 | the imperative pipeline returns ParseDatesSpec of the caller's column, whose array it does not modify |
| Examples.OneEntry | parsing-dates-earthquakes.py:182-299 | a one-entry column is decided by its strict parse and, if that fails, by its one loop step |
| Examples.NineteenFailsMDY | parsing-dates-earthquakes.py:182 | an entry starting with "19" never parses under `%m/%d/%Y` |
| Examples.MonthDayYearParse | parsing-dates-earthquakes.py:182 | under `%m/%d/%Y`, canonical fields parse to (year, month, day) when valid |
| Examples.MonthDayShortYearParse | parsing-dates-earthquakes.py:182 | under `%m/%d/%y`, the year goes through strptime's 1969 pivot |
| Examples.DashesToSlashes | parsing-dates-earthquakes.py:155-160 | an entry with dashes and no dots has its dashes turned into slashes |
| Examples.MonthFirstColumn | parsing-dates-earthquakes.py:182 | "01/02/1965" under `%m%d%Y` becomes 2 January 1965 by the strict parse alone |
| Examples.TwoDigitYearColumn | parsing-dates-earthquakes.py:155-182 | "03-15-65" under `%m%d%y` becomes 15 March 2065 |
| Examples.February30Column | parsing-dates-earthquakes.py:182-199 | "02/30/1970" under `%m%d%Y` stays NaT |
| Examples.NoSeparatorColumn | parsing-dates-earthquakes.py:171-190 | "19700215" ends with the printed ValueError of line 190 for index 0 |
| Examples.TimestampColumn | parsing-dates-earthquakes.py:129-299 | "1975-02-23T02:58:41.000Z" under `%m%d%Y` becomes 23 February 1975 via the reconciliation |
| Examples.DayFirstStrictMiss | parsing-dates-earthquakes.py:182 | under `%d%m%y`, "30/12/1965" fails the strict parse, with "65" left unconverted |
| Examples.DayFirstRowCrashes | parsing-dates-earthquakes.py:229-235 | under `%d%m%y`, the loop step for "30/12/1965" raises the TypeError of the elif |
| Examples.DayFirstColumnCrashes | parsing-dates-earthquakes.py:182-302 | the column ["30/12/1965"] under `%d%m%y` ends the call with that uncaught TypeError |
| Examples.AmbiguousRowYearFirst | parsing-dates-earthquakes.py:210-216 | under `%m%d%Y`, the row "01/02/03" is read year-first and written as "02/03/2001" |

## Left out

- The branch for a non-Series or non-object column (lines 128 and 303-304), which only prints a message. The model's
  input is a column of strings.
- The `is_datetime64_any_dtype` early return (lines 179-180). It cannot fire for a column of strings that stages A and B
  have left as strings.
- Non-string entries such as NaN. Every entry is a string in the model.
- `print` (lines 302 and 304). The printed ValueError is the `PrintedNone` outcome, carrying its cause.
- `date.today()`. The current year is a parameter.
- `Reconcile.YearSuffix`: computes `str(year)[2:]` as `year % 100`, which holds for four-digit years only.
- Duplicate index labels. The model assumes the default RangeIndex, so a key is a position.
- pandas' own coercion when a string is assigned into the datetime64 result column (lines 199-298). The model keeps
  the string as written until the parse of line 299, and parses it there with the format. pandas may instead convert
  the string at once with its general date parser, and then every claim about what line 299 does to a written string
  may differ in the program. The parser reads month first, so a day-first text with a day of 12 or less could end
  with day and month swapped. It reads a 2-digit year through its own century window, not strptime's 00-68 rule.
  An already converted cell would also reach line 299 as a timestamp, so the Reparse error might never be raised.
  Which of these pandas does is not settled here.
- pandas' ISO 8601 fast path for formats such as `%Y-%m-%d`. Every format goes through the strptime matcher.
- Whitespace inside a strptime format, which strptime turns into `\s+`. The model reads every character that is not
  a directive as itself. This is exact for the documented separators `/`, `-` and `.`. A whitespace `sep` would match
  only itself.
- Multi-character separators. `Sep` is None, the empty string, or one character, since the documented values are `/`,
  `-` and `.`. A longer `sep` string is not modelled.
- Non-ASCII digits and whitespace. `int()`, `\d` and `[0-9]` are modelled on ASCII, with `\s` as Python's
  `str.isspace` set.
- Lines 140-141 are modelled as literal replacements, following pandas 2, where `str.replace` defaults to
  `regex=False`. Lines 150-151 are whole-value `Series.replace` calls.
- `date_format` is restricted to the six documented values (line 118). Any other string is not modelled.
- Strptime.CenturyOf: does not model the platform's own `%y` pivot. It states as an assumption CPython's rule that
  00-68 are 2000-2068 and 69-99 are 1969-1999.
- Concurrency and the notebook around the function (drive mount, CSV loading, plotting) are outside this model.
