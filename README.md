# TODO-DAPP contract, modelled in Dafny

This project models the ink! smart contract `Todo` of TODO-DAPP. Each account
keeps one-off notes per calendar date and repeating notes per weekday. It can
mark a note completed on today's date; a repeating note is marked only for that
one date. The model covers:

- the contract's storage and messages (`contracts/src/todo/lib.rs`);
- its date helpers (`contracts/src/todo/date.rs`);
- the note record (`contracts/src/todo/note.rs`);
- the error enum (`contracts/src/todo/errors.rs`).

Modules:

- `Ints`, `Wrappers`: machine integer ranges (`u8`, `u16`, `u64`, `i32`) and
  `Option`/`Result`. `Result` supports `:-`, which plays the part of Rust's `?`.
- `Errors`: the `TodoError` enum.
- `Notes`: the `Note` record, `Note::new` and the derived `Default`. The
  derived `PartialEq` is the datatype's own `==`, which compares all fields.
- `Gregorian`: the proleptic Gregorian calendar that the contract borrows from
  the `chrono` crate. It covers validation (`from_ymd_opt`), day numbers,
  `checked_add_days`/`checked_sub_days`, `year_ce`, `weekday` and the UTC date
  of a timestamp. chrono itself is not part of this model; this module
  re-derives the behaviour the contract relies on, including chrono's year
  range (-262144 to 262143, that is `i32::MIN >> 13` to `i32::MAX >> 13`).
- `Dates`: `date.rs`. Dates are `(u16, u8, u8)` triples. The casts `as u16`
  keep the year modulo 2^16. `year_ce` turns year 0 into 1. `compare` is the
  contract's own formula `365*year + 30*month + day` in `i32`.
- `NoteLists`: what is done to one bucket (`Vec<Note>`). It finds a note by
  id and builds the `get_notes` view: one-off notes, then the weekday's
  repeating notes carrying that date's completion marks.
- `TodoContract`: the class `Todo` with the four storage maps as fields and
  one method per message. The caller and the block timestamp are parameters.
  `Valid()` is the storage invariant that every message keeps. It says that
  every stored id is below its account's counter, that ids are distinct within
  an account across both maps, and that one-off and repeating notes have the
  right flags.

`compare` is not a chronological total order, and the model follows the code.
A valid date and
the next day compare as equal exactly when the first is the 31st of month `m`
(1 to 11) and the second is the 1st of month `m + 1` (`Dates.CompareTiesExactly`,
`Dates.MonthEndTieIsNextDay`). Apart from this tie, `compare` never reverses
the calendar (`Dates.CompareNeverReversesChronology`). Three consequences for
the messages are proved:

- on the 1st of February, April, June, August, September or November,
  `add_note` accepts yesterday;
- on the 31st of January to November, `edit_note` and `delete_note` refuse
  tomorrow;
- on every other day the policies are exactly chronological.

As a result, the unit tests `add_and_get_notes_works`, `edit_note_works`,
`delete_note_works` and `delete_repeating_note_works` (`lib.rs:264`,
`lib.rs:349`, `lib.rs:441`, `lib.rs:503`) expect outcomes the code does not give
on those days. For instance, on the 31st of January `delete_note` of tomorrow
fails with `CantDeleteTodayOrEarlierNotes` rather than `NoteIdDoesntExist`.

## Model

| member | source | states |
|---|---|---|
| Notes.New | contracts/src/todo/note.rs:17-25 | a new note carries the given id, title, description and repeating flag and is not completed |
| Notes.Default | contracts/src/todo/note.rs:3-14 | the derived default note has id 0, empty title and description, and both flags false |
| Gregorian.FromYmdOpt | contracts/src/todo/date.rs:59 | `from_ymd_opt` yields a date exactly when the year is in chrono's range and the month and day name a real day; that date has the given fields |
| Gregorian.FromDayNumberOpt | contracts/src/todo/date.rs:84 | a day number yields a date exactly when it lies in chrono's range, and that date has this day number |
| Gregorian.DayNumberNamesOneDate | contracts/src/todo/date.rs:84 | every day number is the number of exactly one real calendar date |
| Gregorian.FromDayNumber | contracts/src/todo/date.rs:84 | the date of a day number is a real calendar day whose day number is the given one and whose year contains it |
| Gregorian.DateSearch | contracts/src/todo/date.rs:84 | the search through years and months returns a real calendar day with the given day number |
| Gregorian.FromDayNumberIsSearch | contracts/src/todo/date.rs:84 | the date of a day number is the one the search computes |
| Gregorian.YearOfDayNumberInRange | contracts/src/todo/date.rs:84 | the year of a day number is in chrono's year range exactly when the day number is in chrono's day range |
| Gregorian.NumberOrderIsCalendarOrder | contracts/src/todo/date.rs:81-95 | comparing day numbers is comparing dates by year, then month, then day |
| Gregorian.NumberInjective | contracts/src/todo/date.rs:81-95 | two real dates with the same day number are the same date |
| Gregorian.FromDayNumberOfNumber | contracts/src/todo/date.rs:81-95 | turning a date into its day number and back gives the same date |
| Gregorian.EpochIsThursday | contracts/src/todo/date.rs:71 | 1970-01-01 is a real date, has day number 719528 and is a Thursday |
| Gregorian.WeekdayOfNextDay | contracts/src/todo/date.rs:71 | the day after a date falls on the next weekday |
| Gregorian.WeekdayOfNumberEqual | contracts/src/todo/date.rs:71 | two day numbers fall on the same weekday exactly when they differ by a multiple of 7 |
| Gregorian.WeekdayPeriodic | contracts/src/todo/date.rs:71 | dates whole weeks apart fall on the same weekday |
| Dates.FromWeekday | contracts/src/todo/date.rs:98-110 | no ensures of its own; specified by `Dates.FromWeekdayBijective` |
| Dates.FromNaive | contracts/src/todo/date.rs:50-56 | no ensures of its own; specified by `Dates.FromNaiveOfDayNumber` and `Dates.FromNaiveInCommonEra` |
| Dates.FromTimestamp | contracts/src/todo/date.rs:38-48 | no ensures of its own; specified by `Dates.FromTimestampIsUtcDay` and `Dates.FromTimestampSameDay` |
| Dates.FromUnchecked | contracts/src/todo/date.rs:58-65 | no ensures of its own; specified by `Dates.FromUncheckedAcceptsValidDates`, `Dates.FromUncheckedKeepsCommonEraDates`, `Dates.FromUncheckedMovesYearZero` and `Dates.FromUncheckedIdempotent` |
| Dates.DayOfWeekOf | contracts/src/todo/date.rs:67-74 | no ensures of its own; specified by `Dates.DayOfWeekOfFailsLikeFromUnchecked`, `Dates.EpochIsThursday`, `Dates.DayOfWeekOfNextDay` and `Dates.SameDayOfWeekIffWeeksApart` |
| Dates.Compare | contracts/src/todo/date.rs:76-79 | no ensures of its own; specified by `Dates.CompareAntisymmetric`, `Dates.CompareMagnitude`, `Dates.CompareNeverReversesChronology` and `Dates.CompareTiesExactly` |
| Dates.AddDays | contracts/src/todo/date.rs:81-87 | no ensures of its own; specified by `Dates.AddDaysCountsDays`, `Dates.SubtractDaysUndoesAddDays` and `Dates.AddDaysUndoesSubtractDays` |
| Dates.SubtractDays | contracts/src/todo/date.rs:89-95 | no ensures of its own; specified by `Dates.SubtractDaysCountsDays`, `Dates.AddDaysUndoesSubtractDays` and `Dates.SubtractDaysUndoesAddDays` |
| Dates.FromUncheckedAcceptsValidDates | contracts/src/todo/date.rs:58-65 | `from_unchecked` succeeds exactly on triples that name a real day, and otherwise fails with `InvalidDate` |
| Dates.FromUncheckedKeepsCommonEraDates | contracts/src/todo/date.rs:50-65 | a real date with a year of 1 or more comes back unchanged |
| Dates.FromUncheckedMovesYearZero | contracts/src/todo/date.rs:50-65 | a real date in year 0 comes back with year 1, because `year_ce` is used |
| Dates.FromUncheckedIdempotent | contracts/src/todo/date.rs:50-65 | validating an accepted date again gives the same result, for every date except 0000-02-29 |
| Dates.YearZeroLeapDay | contracts/src/todo/date.rs:50-74 | 0000-02-29 is accepted as 0001-02-29, which is not a real date: validating it again, or asking its weekday, fails with `InvalidDate` |
| Dates.DayOfWeekOfFailsLikeFromUnchecked | contracts/src/todo/date.rs:58-74 | `day_of_week` fails exactly when `from_unchecked` fails, and with `InvalidDate` |
| Dates.CompareAntisymmetric | contracts/src/todo/date.rs:76-79 | a date compares equal to itself, and swapping the arguments negates the result |
| Dates.CompareMagnitude | contracts/src/todo/date.rs:76-79 | every comparison lies within ±23,928,180, so the `i32` arithmetic never overflows |
| Dates.CompareNeverReversesChronology | contracts/src/todo/date.rs:76-79 | if one valid date is earlier than another, it never compares greater |
| Dates.CompareTiesExactly | contracts/src/todo/date.rs:76-79 | two different valid dates compare equal exactly when one is the 31st of a month and the other is the 1st of the next month in the same year |
| Dates.MonthEndTieIsNextDay | contracts/src/todo/date.rs:76-79 | in such a tie, the 1st is the day after the 31st |
| Dates.FromNaiveOfDayNumber | contracts/src/todo/date.rs:50-56 | `from_naive` of a day in the years 1 to 65535 is a valid triple with a year of 1 or more, and it has the same day number |
| Dates.FromNaiveInCommonEra | contracts/src/todo/date.rs:50-56 | for a date in the years 1 to 65535, `from_naive` returns its year, month and day unchanged |
| Dates.AddDaysCountsDays | contracts/src/todo/date.rs:81-87 | staying within the years 1 to 65535, `add_days` gives a valid date exactly `days` days later |
| Dates.SubtractDaysCountsDays | contracts/src/todo/date.rs:89-95 | staying within the years 1 to 65535, `subtract_days` gives a valid date exactly `days` days earlier |
| Dates.SameDayNumberSameDate | contracts/src/todo/date.rs:5-7 | two valid triples with the same day number are equal |
| Dates.SubtractDaysUndoesAddDays | contracts/src/todo/date.rs:81-95 | subtracting the days just added gives back the date |
| Dates.AddDaysUndoesSubtractDays | contracts/src/todo/date.rs:81-95 | adding the days just subtracted gives back the date |
| Dates.NextCalendarDayIsNext | contracts/src/todo/date.rs:81-87 | the calendar's next day (next day of the month, 1st of the next month, or New Year's Day) is a valid date one day number later |
| Dates.AddOneDay | contracts/src/todo/date.rs:81-87 | `add_days(1)` steps to the next day of the month, else to the 1st of the next month, else to New Year's Day |
| Dates.SubtractOneDay | contracts/src/todo/date.rs:89-95 | `subtract_days(1)` steps back to the previous day, else to the last day of the previous month, else to New Year's Eve |
| Dates.FromWeekdayBijective | contracts/src/todo/date.rs:98-110 | `From<Weekday>` is one-to-one and onto, its inverse undoes it, and it maps each next weekday to the next `DayOfWeek` |
| Dates.EpochIsThursday | contracts/src/todo/date.rs:67-74 | `day_of_week` of 1970-01-01 is `Thu` |
| Dates.DayOfWeekOfNextDay | contracts/src/todo/date.rs:67-74 | the next calendar day's weekday is the next `DayOfWeek` |
| Dates.DayOfWeekOfWeeksApart | contracts/src/todo/date.rs:67-74 | valid dates whole weeks apart have the same `day_of_week` |
| Dates.SameDayOfWeekIffWeeksApart | contracts/src/todo/date.rs:67-74 | two valid dates have the same `day_of_week` exactly when they are a multiple of 7 days apart |
| Dates.WeekLaterSameDayOfWeek | contracts/src/todo/date.rs:67-87 | `add_days(7)` keeps the weekday |
| Dates.WeekEarlierSameDayOfWeek | contracts/src/todo/date.rs:67-95 | `subtract_days(7)` keeps the weekday |
| Dates.DayOfMillis | contracts/src/todo/date.rs:38-41 | dividing milliseconds first by 1000 and then by 86400 gives the same day count as dividing by 86,400,000 |
| Dates.FromTimestampIsUtcDay | contracts/src/todo/date.rs:38-48 | a timestamp up to the year 65535 maps to the valid date whose day number is the epoch's plus the whole days elapsed, and `from_unchecked` accepts that date unchanged |
| Dates.FromTimestampSameDay | contracts/src/todo/date.rs:38-48 | two timestamps in the same UTC day give the same date |
| NoteLists.IndexOf | contracts/src/todo/lib.rs:184-186 | the position found holds a note with the id, and no earlier note has it; nothing is found exactly when no note has the id |
| NoteLists.IndexOfUnique | contracts/src/todo/lib.rs:233-247 | when ids are distinct, the search finds the one note that has the id |
| NoteLists.Occurrences | contracts/src/todo/lib.rs:62-66 | no ensures of its own; specified by `NoteLists.ViewLayout`, `NoteLists.ViewCompletion` and `NoteLists.ViewIgnoresRepeats` |
| NoteLists.IdSet | contracts/src/todo/lib.rs:58-60 | no ensures of its own; specified by `NoteLists.ViewCompletion` and `NoteLists.ViewIgnoresRepeats` |
| NoteLists.ViewLayout | contracts/src/todo/lib.rs:54-70 | the view lists the one-off notes unchanged and in order, then every repeating note in order, differing at most in `completed` |
| NoteLists.ViewCompletion | contracts/src/todo/lib.rs:58-66 | a repeating note shows completed exactly when it is stored completed or its id is in the date's list |
| NoteLists.ViewIgnoresRepeats | contracts/src/todo/lib.rs:58-63 | two completed lists with the same members give the same view |
| TodoContract.Todo.constructor | contracts/src/todo/lib.rs:38-45 | a new contract has four empty maps and satisfies the storage invariant |
| TodoContract.Todo.Today | contracts/src/todo/lib.rs:212-214 | for a block time up to the year 65535, today is the valid UTC date of the timestamp, and `from_unchecked` accepts it unchanged |
| TodoContract.Todo.IsToday | contracts/src/todo/lib.rs:217-220 | a date that is today compares as 0 with today |
| TodoContract.Todo.GetNotes | contracts/src/todo/lib.rs:48-71 | an invalid date, or one without a weekday, fails with `InvalidDate`; otherwise the result is the caller's one-off notes of the date followed by the weekday's repeating notes, marked completed per the date's list |
| TodoContract.Todo.GetRepeatingNotes | contracts/src/todo/lib.rs:74-77 | always `Ok` with the caller's stored repeating notes for the weekday; in a valid store all of them are repeating and none is completed |
| TodoContract.Todo.AddAnyNote | contracts/src/todo/lib.rs:222-231 | the new id is the account's counter, the note is appended to the bucket, the counter goes up by one, and the storage invariant still holds |
| TodoContract.Todo.FindNote | contracts/src/todo/lib.rs:184-186 | the loop finds the first position whose note has the id |
| TodoContract.Todo.EditAnyNote | contracts/src/todo/lib.rs:233-240 | an unknown id fails with `NoteIdDoesntExist`; otherwise only the title and description of the first note with the id change |
| TodoContract.Todo.DeleteAnyNote | contracts/src/todo/lib.rs:242-247 | an unknown id fails with `NoteIdDoesntExist`; otherwise exactly the first note with the id is removed and the others keep their order |
| TodoContract.Todo.StoreNote | contracts/src/todo/lib.rs:88-94 | a one-off note with the caller's counter as id is appended to the date's bucket, the counter goes up by one, and the invariant holds |
| TodoContract.Todo.AddNote | contracts/src/todo/lib.rs:80-95 | an invalid date fails with `InvalidDate`, and a date comparing below today fails with `CantAddNoteEarlierThanToday`, both with nothing written; otherwise it returns the caller's old counter and stores the note as `StoreNote` does |
| TodoContract.Todo.AddRepeatingNote | contracts/src/todo/lib.rs:98-108 | returns the caller's old counter, appends a repeating note with that id to the weekday's bucket, raises the counter, leaves the other maps alone and keeps the invariant |
| TodoContract.Todo.EditStoredNote | contracts/src/todo/lib.rs:119-125 | edits the date's bucket as `EditAnyNote` does and writes it back, or fails with `NoteIdDoesntExist` with nothing written |
| TodoContract.Todo.EditNote | contracts/src/todo/lib.rs:111-126 | an invalid date fails with `InvalidDate`, and a date comparing at or below today fails with `CantEditTodayOrEarlierNotes`, both with nothing written; otherwise it behaves as `EditStoredNote` |
| TodoContract.Todo.EditRepeatingNote | contracts/src/todo/lib.rs:129-138 | edits the weekday's bucket as `EditAnyNote` does, or fails with `NoteIdDoesntExist` with nothing written |
| TodoContract.Todo.DeleteStoredNote | contracts/src/todo/lib.rs:149-155 | removes the note from the date's bucket as `DeleteAnyNote` does, or fails with `NoteIdDoesntExist` with nothing written |
| TodoContract.Todo.DeleteNote | contracts/src/todo/lib.rs:141-156 | an invalid date fails with `InvalidDate`, and a date comparing at or below today fails with `CantDeleteTodayOrEarlierNotes`, both with nothing written; otherwise it behaves as `DeleteStoredNote` |
| TodoContract.Todo.DeleteRepeatingNote | contracts/src/todo/lib.rs:159-168 | removes the note from the weekday's bucket as `DeleteAnyNote` does, or fails with `NoteIdDoesntExist` with nothing written |
| TodoContract.Todo.CompleteStoredNote | contracts/src/todo/lib.rs:180-203 | a one-off note with the id is marked completed in place; failing that, a repeating note with the id gets the id appended to the date's completed list; failing both, `NoteIdDoesntExist` with nothing written |
| TodoContract.Todo.CompleteNote | contracts/src/todo/lib.rs:171-204 | checks in the source's order: an invalid date, then a missing weekday (`InvalidDate`), then a date that is not equal to today (`CantCompleteNoteNotFromToday`); it then completes the note as `CompleteStoredNote` does, keeping the invariant |
| TodoContract.CounterIsFresh | contracts/src/todo/lib.rs:222-231 | in a valid store the id the next add hands out is not used by any of the caller's notes |
| TodoContract.ViewShowsCompletion | contracts/src/todo/lib.rs:54-70 | in a valid store a repeating note shows completed on a date exactly when its id is in that date's list |
| TodoContract.PolicyIsChronologicalAwayFromTies | contracts/src/todo/lib.rs:84-86 | away from the month-end tie, "compares below today" means "earlier than today", and "compares at or below today" means "today or earlier" |
| TodoContract.PolicyRefusesTomorrowOnThe31st | contracts/src/todo/lib.rs:115-117 | on the 31st of January to November, tomorrow is the 1st of the next month and compares as 0 with today, so edit and delete refuse it |
| TodoContract.PolicyAcceptsYesterdayOnThe1st | contracts/src/todo/lib.rs:84-86 | on the 1st of February, April, June, August, September or November, yesterday is the 31st and compares as 0 with today, so add accepts it |
| TodoContract.CompletionIsNotByCompare | contracts/src/todo/lib.rs:176-178 | a date tying with today compares as 0 but is not today, so `complete_note` refuses it |

## Left out

- The web frontend, SCALE encoding and ink!'s metadata are not part of this model.
- The execution environment is not modelled: `self.env().caller()` and `self.env().block_timestamp()` become parameters of each message.
- `get_block_timestamp` (lib.rs:206-209) only returns the block time, which is a parameter here.
- The storage side effect of `tmp_mapping` in `get_notes` is not modelled. `Mapping::new()` lives in contract storage under a root key that is the same on every call: lib.rs:60 writes every id of the date's completed list into it, and lib.rs:63 reads it back. The model takes it as a fresh set of ids for each call. It therefore does not capture that, when `get_notes` runs as a transaction rather than as a dry-run query, these entries stay in storage, keyed by note id alone; a later `get_notes` can then find a leftover entry and mark a repeating note completed on a date, or for an account, whose list never held its id.
- ink!'s `Mapping` is modelled as a Dafny `map`. A missing key reads as the empty list or as 0, like `unwrap_or_default`.
- Panics are preconditions, not behaviour. These are `unwrap` on a timestamp or date outside chrono's range (`Dates.FromTimestamp`, `Dates.AddDays`, `Dates.SubtractDays`), `unwrap` of `from_ymd_opt` on an invalid date in `add_days` and `subtract_days` (date.rs:82, date.rs:90; `requires IsValidDate(date)` in `Dates.AddDays` and `Dates.SubtractDays`), and the `u64` overflow of `note_id + 1`.
- TodoContract.Todo.AddNote: also requires the caller's counter to be below 2^64 - 1 on the path that stores a note. AddAnyNote, StoreNote and AddRepeatingNote require the same, so the counter's overflow panic is not modelled.
- TodoContract.Todo.Today: its contract describes today only for block times up to the year 65535. Beyond that, the `as u16` cast wraps the year; the model computes that wrapped year but states nothing more about it.
- Completed ids are never removed from `completed_repeating_notes` when a repeating note is deleted, and the model does not remove them either. The invariant only bounds them by the counter.
- The unit tests (lib.rs:255-588) are not replayed as methods; the facts they rely on are stated as lemmas instead:
  - adding 7 days keeps the weekday;
  - the date policies;
  - the layout of the `get_notes` view.

  Note equality, which the tests compare with `assert_eq!`, is the derived `==` of `datatype Note` and is not a lemma.
- chrono is re-derived in module `Gregorian`; only the parts the contract calls are modelled.
- Gregorian.FromDayNumber: picks its date with `:|`, which Dafny cannot compile; `Gregorian.DateSearch` computes the same date (`Gregorian.FromDayNumberIsSearch`). The model is meant for verification, and defining `FromDayNumber` by the search would expose the search to every proof about shifted dates.
- No chrono version is pinned by the contract's sources. The year range -262144 to 262143 is the one of the chrono 0.4 releases that define it as `i32::MIN >> 13` to `i32::MAX >> 13`; releases with a range narrower by a year at either end change only the far-range panic preconditions of `Dates.FromTimestamp`, `Dates.AddDays` and `Dates.SubtractDays`, which only block times tens of thousands of years past the `u16` years reach.
