/** The note record stored by the contract. One-off notes live under a date,
    repeating templates under a weekday; `isRepeating` tells them apart. */
module Notes {
  import opened Ints

  /** The derived `PartialEq` is the datatype's own `==`, which compares all
      five fields. */
  datatype Note = Note(
    id: u64,
    completed: bool,
    title: string,
    description: string,
    isRepeating: bool)

  /** `Note::new`: a freshly created note is never completed; every other
      field is taken from the arguments unchanged. */
  function New(id: u64, title: string, description: string, isRepeating: bool): (n: Note)
    ensures !n.completed
    ensures n.id == id && n.title == title && n.description == description
    ensures n.isRepeating == isRepeating
  {
    Note(id, false, title, description, isRepeating)
  }

  /** The derived `Default` note, which the tests use as a fallback. */
  function Default(): (n: Note)
    ensures n.id == 0 && n.title == "" && n.description == ""
    ensures !n.completed && !n.isRepeating
  {
    Note(0, false, "", "", false)
  }
}
