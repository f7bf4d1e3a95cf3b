/** The error enum every fallible message of the contract returns. */
module Errors {
  datatype TodoError =
    | NoteIdDoesntExist
    | InvalidDate
    | CantCompleteNoteNotFromToday
    | CantAddNoteEarlierThanToday
    | CantEditTodayOrEarlierNotes
    | CantDeleteTodayOrEarlierNotes
}
