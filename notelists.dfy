/** What the contract does with one bucket (`Vec<Note>`) of notes: find a note
    by id, and show the weekday's repeating notes on one date with that date's
    completion marks. */
module NoteLists {
  import opened Ints
  import opened Wrappers
  import opened Notes

  /** Position of the first note whose id is `id` (`iter().position` and
      `iter_mut().find` on the bucket), or None. */
  function IndexOf(notes: seq<Note>, id: u64): (r: Option<nat>)
    ensures r.Some? ==> r.value < |notes| && notes[r.value].id == id
    ensures r.Some? ==> forall j :: 0 <= j < r.value ==> notes[j].id != id
    ensures r.None? <==> forall j :: 0 <= j < |notes| ==> notes[j].id != id
  {
    if notes == [] then None
    else if notes[0].id == id then Some(0)
    else
      match IndexOf(notes[1..], id)
      case None => None
      case Some(k) => Some(k + 1)
  }

  /** Where ids are distinct, the note with id `id` is found at its one
      position. */
  lemma IndexOfUnique(notes: seq<Note>, id: u64, k: nat)
    requires forall i, j :: 0 <= i < j < |notes| ==> notes[i].id != notes[j].id
    requires k < |notes| && notes[k].id == id
    ensures IndexOf(notes, id) == Some(k)
  {
  }

  /** One repeating note as `get_notes` shows it on a date whose completed
      ids are `done`. */
  function Occurrence(template: Note, done: set<u64>): Note {
    if template.id in done then template.(completed := true) else template
  }

  /** The bucket of repeating notes with the date's completion marks. */
  function Occurrences(templates: seq<Note>, done: set<u64>): seq<Note> {
    seq(|templates|, i requires 0 <= i < |templates| => Occurrence(templates[i], done))
  }

  /** The ids listed in a completed-occurrence list, as a set. */
  function IdSet(ids: seq<u64>): set<u64> {
    set x | x in ids
  }

  /** The `get_notes` view of one date: the one-off notes, then the
      weekday's repeating notes marked with the date's completed ids. */
  function View(oneOff: seq<Note>, templates: seq<Note>, done: seq<u64>): seq<Note> {
    oneOff + Occurrences(templates, IdSet(done))
  }

  /** The view lists the one-off notes unchanged and in order, then one copy
      of every repeating note in order, changed at most in its `completed`
      flag. */
  lemma ViewLayout(oneOff: seq<Note>, templates: seq<Note>, done: seq<u64>)
    ensures |View(oneOff, templates, done)| == |oneOff| + |templates|
    ensures View(oneOff, templates, done)[..|oneOff|] == oneOff
    ensures forall i :: 0 <= i < |templates| ==>
      View(oneOff, templates, done)[|oneOff| + i] == templates[i].(completed := View(oneOff, templates, done)[|oneOff| + i].completed)
  {
  }

  /** A repeating note shows as completed exactly when it is stored as
      completed or its id is in the date's list. */
  lemma ViewCompletion(oneOff: seq<Note>, templates: seq<Note>, done: seq<u64>, i: nat)
    requires i < |templates|
    ensures View(oneOff, templates, done)[|oneOff| + i].completed <==> templates[i].completed || templates[i].id in done
  {
  }

  /** Only which ids the completed list holds matters: repeating an id, or
      listing them in another order, shows the same view. */
  lemma ViewIgnoresRepeats(oneOff: seq<Note>, templates: seq<Note>, done1: seq<u64>, done2: seq<u64>)
    requires forall x :: x in done1 <==> x in done2
    ensures View(oneOff, templates, done1) == View(oneOff, templates, done2)
  {
    assert IdSet(done1) == IdSet(done2);
  }
}
