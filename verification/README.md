# Expense tracker: a verified model

This project models the core of a small command-line expense tracker (`Assignment07.py`).
The program keeps a table of `[name, amount]` rows in memory. Its `Processor` class can
append a row, remove rows by name (ignoring case), sum the amounts, and load or save the
table through a pickled data file. The `IO` class reads a menu choice. The script's main
`while` loop dispatches on that choice until the user picks option 5.

Modules:

- `Wrappers` (`wrappers.dfy`): `Option` and `Result`.
- `Subsequences` (`subsequences.dfy`): the order-preserving sub-sequence relation, used to
  say that removal never adds or reorders rows.
- `Processor` (`processor.dfy`): `Row`, case-insensitive matching, append, remove, sum,
  load and save.
- `IO` (`io.dfy`): `str.strip()` and the menu-choice check.
- `MainLoop` (`mainloop.dfy`): start-up, one pass of the loop (`Step`), and a run over a
  finite stretch of input (`Run`).

`remove_data_from_list` is modelled as written. It deletes rows while a `for` loop walks
the same list. Python's list iterator keeps an index and advances it on every step. On a
match, the body deletes the first row that is equal by value to the current one
(`list.index`), which sits at or before the cursor. The row just after the current one
shifts into the cursor's slot and is never examined.
`Processor.Advance` is one pass of the loop body. `Processor.RemoveFrom` is the whole loop
as a recursive function over (table, cursor). `Processor.RemoveDataFromList` is the same
loop written imperatively. Its loop invariants say that only matching rows may vanish and
that the non-matching rows keep their order. That all survivors keep their order follows
from its first postcondition and `Processor.RemoveOnlyDropsMatches`.
`Processor.RemoveRows` runs `RemoveFrom` from cursor 0; it is the removal that
`MainLoop.Step` performs for option 2.
`Processor.RemoveAll` is the evidently intended removal: it keeps exactly the rows that do
not match. See "## Findings".

Console input enters as parameters. `MainLoop.Command` holds the raw choice line plus the
name and amount typed for options 1 and 2. The data file is the abstract
`Processor.Disk`, which is `Missing`, `Stored(rows)` or `Unreadable`.

## Model

| member | source | states |
|---|---|---|
| Processor.AddDataToList | Assignment07.py:50-61 | the result is one row longer; all earlier rows are unchanged and in place; the last row is exactly `(name, amount)` |
| Processor.LowerSpec | Assignment07.py:72 | lower-casing keeps the length and maps each character on its own |
| Processor.FirstIndex | Assignment07.py:73 | `list.index(row)`: a position holding a row equal by value, with no equal row before it |
| Processor.RemoveAll | Assignment07.py:64-74 | the intended removal: the result is no longer than the table, and no row in it matches the key |
| Processor.RemoveAllMembers | Assignment07.py:64-74 | under the intended removal, a row survives iff it is in the table and its lowered name differs from the lowered key |
| Processor.RemoveAllSubseq | Assignment07.py:64-74 | the intended removal keeps the surviving rows in their original order |
| Processor.RemoveAllUnchangedIff | Assignment07.py:71-74 | the intended removal leaves the table unchanged iff no row matches the key |
| Processor.AdvanceKeeps | Assignment07.py:72-73 | one pass of the loop body adds no row, moves no row, and deletes at most one row, which matches the key; the non-matching rows are the same before and after |
| Processor.RemoveFromKeeps | Assignment07.py:71-73 | the as-written loop, from any cursor position, gives a sub-sequence of the table with no new rows and the same non-matching rows in the same order |
| Processor.RemoveDataFromListVisit | Assignment07.py:72-73 | without a case-insensitive name match the table is unchanged; with one, exactly one row is deleted: the first row equal by value to the current row, at or before the cursor. A deletion at or before the cursor is why the row after the cursor is skipped next |
| Processor.RemoveDataFromList | Assignment07.py:64-74 | the imperative delete-while-iterating loop, with an index that advances on every pass, gives the same table as the functional model. The loop invariants keep every non-matching row, in order, and never add a row |
| Processor.RemoveOnlyDropsMatches | Assignment07.py:71-74 | removal never adds or reorders rows and never grows the table; every surviving row was in the table, and every row whose lowered name differs from the key survives |
| Processor.RemoveNoMatch | Assignment07.py:71-74 | removing a name that no row matches returns the table unchanged |
| Processor.RemoveSingleMatch | Assignment07.py:71-73 | with exactly one matching row at index k, removal deletes that row only, and the length drops by one |
| Processor.RemoveAgreesNoMatch | Assignment07.py:71-74 | with no matching row, the as-written removal and the intended removal both return the table unchanged |
| Processor.RemoveAgreesSingleMatch | Assignment07.py:71-74 | with exactly one matching row, the as-written removal gives the same table as the intended removal |
| Processor.RemoveCaseBlind | Assignment07.py:72 | two keys with the same lower-cased form remove exactly the same rows |
| Processor.RemoveIgnoresCase | Assignment07.py:72 | removing "COFFEE" from a one-row table whose row is named "Coffee" leaves it empty |
| Processor.RemoveSkipsShiftedMatch | Assignment07.py:71-73 | of two matching rows, the as-written loop deletes the first, skips the second and keeps it; the intended removal keeps neither |
| Processor.AdvanceKeepsBehind | Assignment07.py:71-73 | a row the cursor has passed is still before the cursor after the next pass, because a deletion happens at or before the cursor |
| Processor.BehindSurvives | Assignment07.py:71-73 | a row the cursor has passed survives the rest of the loop |
| Processor.RemoveKeepsPassedRows | Assignment07.py:71-73 | once the cursor is at `c`, every row before it is in the final table |
| Processor.RemoveFromSkipsNoMatch | Assignment07.py:71-72 | passes over rows that do not match change nothing, so the loop reaches the first match with the table intact |
| Processor.AdvanceAtMatch | Assignment07.py:72-73 | a pass at a matching row deletes the row at some position at or before the cursor, and the loop continues from the next cursor on the shortened table |
| Processor.SkipAtAnyCursor | Assignment07.py:71-73 | at every deletion, not only the first, the row right after the matching row at the cursor shifts into the cursor's slot, is never examined, and survives |
| Processor.SkipGeneral | Assignment07.py:71-73 | in any table, when the first matching row is deleted, a matching row directly after it shifts into the cursor's slot, is never examined, and survives, whatever precedes or follows |
| Processor.RemoveUndoesAdd | Assignment07.py:59-74 | removing the name just added to a table with no row of that name gives the original table back |
| Processor.SumAppend | Assignment07.py:96-100 | the total of a concatenation is the sum of the two totals |
| Processor.SumAfterAdd | Assignment07.py:96-100 | after adding `(name, amount)` the total grows by `amount`, whatever the name |
| Processor.SumExpenses | Assignment07.py:90-100 | the left-to-right running total from 0 equals the sum of all amounts; an empty table sums to 0 |
| Processor.LoadDataFromFile | Assignment07.py:33-47 | a missing file gives an empty table, whatever the table held before; a stored file gives its rows; any other failure is an error that is not caught |
| Processor.PickleDataToFile | Assignment07.py:77-87 | saving returns the table unchanged, and loading the written file gives back the same rows in the same order |
| IO.StripLeftSpec | Assignment07.py:130 | leading-whitespace removal keeps a suffix, drops only whitespace, and leaves no whitespace at the start |
| IO.StripRightSpec | Assignment07.py:130 | trailing-whitespace removal keeps a prefix, drops only whitespace, and leaves no whitespace at the end |
| IO.StripSplit | Assignment07.py:130 | the input is leading whitespace, then the stripped text, then trailing whitespace; the stripped text neither starts nor ends with whitespace |
| IO.StripSpec | Assignment07.py:130 | a stripped string has no whitespace at either end, and it is empty iff the input was all whitespace |
| IO.StripPadded | Assignment07.py:130 | padding text whose ends are not whitespace with whitespace on both sides strips back to that text |
| IO.StripIdempotent | Assignment07.py:130 | stripping twice is the same as stripping once |
| IO.InputMenuChoice | Assignment07.py:124-137 | the stripped line is returned whether valid or not; it is valid iff it is a single digit from 1 to 5 |
| IO.MenuChoicePadded | Assignment07.py:130-137 | a digit from 1 to 5 with any surrounding whitespace is accepted as that digit |
| MainLoop.Start | Assignment07.py:193 | start-up with no data file gives an empty table; a stored file gives its rows; an unreadable file is an error |
| MainLoop.Step | Assignment07.py:196-225 | only "5" ends the loop. "1" appends and "2" removes. Every other choice leaves the table unchanged. "3" writes the table to the file, which loads back as the same table, and is the only choice that touches the file. "4" shows the total, and only "4" does. An invalid choice changes nothing and continues |
| MainLoop.Run | Assignment07.py:196-225 | a run stops right after a line that strips to "5"; if it does not stop, it has consumed all input |
| MainLoop.RunExitsAtFirstExit | Assignment07.py:196-225 | no line before the one the run stops at is an exit, so the loop is left at the first "5"; a run that does not stop has met no exit line |
| MainLoop.RunReadOnly | Assignment07.py:213-225 | a run of choices other than 1 and 2 leaves the table unchanged |
| MainLoop.RunIgnoresAfterExit | Assignment07.py:223-225 | once the loop is left, later input does not change the outcome |

## Left out

- Pickle and file handling (`open`, `pickle.load`, `pickle.dump`, `close`): the file is the abstract `Disk`. When loading, every failure other than a missing file is the single `Unreadable` case. The model does not distinguish between the different exceptions.
- Processor.PickleDataToFile: a failed save is not modelled. In the program, `open(file_name, "wb")` or `pickle.dump` can raise (no permission, a directory at that path, a full disk); nothing catches it, so the script ends. In the model, saving always succeeds.
- All printing and prompting in `IO` (menu text, table listing, messages, blank lines): these are console output with no logic. The range error that `input_menu_choice` prints is the `bool` half of `IO.InputMenuChoice`.
- `input_new_expense_and_amount` and `input_expense_to_remove`: reading the name, parsing the float and the `ValueError` re-prompt loop are console input and float parsing. A `Command` carries the name and the amount already parsed.
- `output_current_expenses_in_list` and `output_sum_of_expenses`: formatting with `'.2f'` is output only.
- Processor.SumExpenses: amounts are exact `real`s, so the rounding of Python's float additions is not modelled. `float()` also accepts "inf" and "nan", which have no `real` counterpart; for those amounts `Processor.SumAfterAdd` has no float analogue.
- Processor.Lower: lower-cases ASCII letters only; Python's `str.lower()` covers all of Unicode.
- IO.Strip: strips the ASCII whitespace that `str.isspace()` accepts (tab, line feed, vertical tab, form feed, carriage return, 0x1C-0x1F, space); non-ASCII whitespace is not modelled.
- Processor.FirstIndex: compares rows by value. Python's `list.index` checks identity first, which matters only for a NaN amount; reals have no NaN.
- Processor.LoadDataFromFile: `list.clear()` also empties the caller's list object in place. Values have no aliasing, and the script assigns the result anyway.
- MainLoop.Run: covers a finite stretch of input. The real loop reads until option 5, or until the input ends, when `input()` raises `EOFError`, nothing catches it, and the script stops; a `Run` that does not exit stands for either case.

## Findings

| source | as written | input that shows it | evidently intended | confidence | as-written member | corrected member |
|---|---|---|---|---|---|---|
| Assignment07.py:71-73 | deletes from the list while a `for` loop iterates it, so the row right after a deleted match shifts into the cursor's slot and is skipped | table `[("Coffee", 3.5), ("coffee", 2.0)]`, remove "COFFEE": the result is `[("coffee", 2.0)]` | every row whose lowered name equals the lowered key is removed (the loop walks the whole list and has no `break` after the `del`, so it is meant to delete every match, not just the first) | high; not executed | Processor.RemoveSkipsShiftedMatch | Processor.RemoveAll |

`Processor.RemoveAll` promises that no row of its result matches the key.
`Processor.RemoveAllMembers` proves that a row survives it iff the row does not match.
`MainLoop.Step` keeps the as-written removal because it models what the program does.
The contracts of the as-written removal are stated against `Processor.RemoveAll`: both
keep the same non-matching rows in the same order. The two give the same table whenever at
most one row matches (`Processor.RemoveAgreesNoMatch`, `Processor.RemoveAgreesSingleMatch`).
