/** The `Todo` contract: per-account notes kept in four storage maps. A
    message runs for one caller at one block time; both are parameters here.
    Every message checks its date and the date policy against today before it
    writes anything, then reads one bucket, changes it and writes it back. */
module TodoContract {
  import opened Ints
  import opened Wrappers
  import opened Errors
  import opened Notes
  import opened NoteLists
  import opened Dates
  import Gregorian

  /** ink!'s `AccountId`: 32 bytes. */
  type AccountId = s: seq<u8> | |s| == 32 witness seq(32, _ => 0)

  /** A storage bucket; a missing key reads as the empty list
      (`unwrap_or_default`). */
  function Bucket<K(==), V>(m: map<K, seq<V>>, key: K): seq<V> {
    if key in m then m[key] else []
  }

  /** An account's id counter; a missing account reads as 0. */
  function Counter(m: map<AccountId, u64>, account: AccountId): u64 {
    if account in m then m[account] else 0
  }

  // ---------------------------------------------------------------------
  // The storage invariant, stated on the maps themselves
  // ---------------------------------------------------------------------

  /** Every id in `m` is below its account's counter. */
  ghost predicate IdsBelow<D>(m: map<(AccountId, D), seq<Note>>, counter: map<AccountId, u64>) {
    forall key, i | key in m && 0 <= i < |m[key]| :: m[key][i].id < Counter(counter, key.0)
  }

  /** No id occurs twice among one account's notes in `m`. */
  ghost predicate IdsDistinct<D>(m: map<(AccountId, D), seq<Note>>) {
    forall k1, k2, i, j |
      k1 in m && k2 in m && k1.0 == k2.0 && 0 <= i < |m[k1]| && 0 <= j < |m[k2]| && (k1 != k2 || i != j) ::
      m[k1][i].id != m[k2][j].id
  }

  /** No id of an account occurs both in `m1` and in `m2`. */
  ghost predicate IdsApart<D, E>(m1: map<(AccountId, D), seq<Note>>, m2: map<(AccountId, E), seq<Note>>) {
    forall k1, k2, i, j |
      k1 in m1 && k2 in m2 && k1.0 == k2.0 && 0 <= i < |m1[k1]| && 0 <= j < |m2[k2]| ::
      m1[k1][i].id != m2[k2][j].id
  }

  /** Every completed-occurrence id is below its account's counter. */
  ghost predicate DoneBelow(m: map<(AccountId, Date), seq<u64>>, counter: map<AccountId, u64>) {
    forall key, i | key in m && 0 <= i < |m[key]| :: m[key][i] < Counter(counter, key.0)
  }

  /** Notes stored under a date are one-off notes. */
  ghost predicate AllOneOff(m: map<(AccountId, Date), seq<Note>>) {
    forall key, i | key in m && 0 <= i < |m[key]| :: !m[key][i].isRepeating
  }

  /** Notes stored under a weekday are repeating and never completed
      themselves; completion is recorded per date. */
  ghost predicate AllTemplates(m: map<(AccountId, DayOfWeek), seq<Note>>) {
    forall key, i | key in m && 0 <= i < |m[key]| :: m[key][i].isRepeating && !m[key][i].completed
  }

  /** Writing a bucket of one-off notes keeps the one-off map's shape. */
  lemma PutOneOffs(m: map<(AccountId, Date), seq<Note>>, key: (AccountId, Date), s: seq<Note>)
    requires AllOneOff(m)
    requires forall i :: 0 <= i < |s| ==> !s[i].isRepeating
    ensures AllOneOff(m[key := s])
  {
  }

  /** Writing a bucket of uncompleted repeating notes keeps the repeating
      map's shape. */
  lemma PutTemplates(m: map<(AccountId, DayOfWeek), seq<Note>>, key: (AccountId, DayOfWeek), s: seq<Note>)
    requires AllTemplates(m)
    requires forall i :: 0 <= i < |s| ==> s[i].isRepeating && !s[i].completed
    ensures AllTemplates(m[key := s])
  {
  }

  lemma ApartSymmetric<D, E>(m1: map<(AccountId, D), seq<Note>>, m2: map<(AccountId, E), seq<Note>>)
    requires IdsApart(m1, m2)
    ensures IdsApart(m2, m1)
  {
  }

  /** Appending a note with the account's counter as id, and raising the
      counter past it, keeps ids below the counter and distinct. */
  lemma AppendKeepsIds<D, E>(
    m: map<(AccountId, D), seq<Note>>, other: map<(AccountId, E), seq<Note>>,
    counter: map<AccountId, u64>, key: (AccountId, D), n: Note)
    requires IdsBelow(m, counter) && IdsBelow(other, counter)
    requires IdsDistinct(m) && IdsApart(m, other)
    requires n.id == Counter(counter, key.0) && n.id < U64_LIMIT - 1
    ensures IdsBelow(m[key := Bucket(m, key) + [n]], counter[key.0 := n.id + 1])
    ensures IdsBelow(other, counter[key.0 := n.id + 1])
    ensures IdsDistinct(m[key := Bucket(m, key) + [n]])
    ensures IdsApart(m[key := Bucket(m, key) + [n]], other)
  {
    var m': map<(AccountId, D), seq<Note>> := m[key := Bucket(m, key) + [n]];
    var counter' := counter[key.0 := n.id + 1];
    forall k: (AccountId, D), i: int | k in m' && 0 <= i < |m'[k]|
      ensures m'[k][i].id < Counter(counter', k.0)
      ensures k.0 == key.0 ==> m'[k][i].id <= n.id
      ensures k.0 == key.0 && m'[k][i].id == n.id ==> k == key && i == |m'[k]| - 1
    {
      if k == key && i == |m'[k]| - 1 {
        assert m'[k][i] == n;
      } else {
        assert m'[k][i] == m[k][i];
      }
    }
  }

  /** Replacing a bucket by one with the same ids at the same positions keeps
      ids below the counter and distinct. */
  lemma ReplaceKeepsIds<D, E>(
    m: map<(AccountId, D), seq<Note>>, other: map<(AccountId, E), seq<Note>>,
    counter: map<AccountId, u64>, key: (AccountId, D), s: seq<Note>)
    requires IdsBelow(m, counter) && IdsDistinct(m) && IdsApart(m, other)
    requires |s| == |Bucket(m, key)|
    requires forall i :: 0 <= i < |s| ==> s[i].id == Bucket(m, key)[i].id
    ensures IdsBelow(m[key := s], counter)
    ensures IdsDistinct(m[key := s])
    ensures IdsApart(m[key := s], other)
  {
    var m': map<(AccountId, D), seq<Note>> := m[key := s];
    forall k: (AccountId, D), i: int | k in m' && 0 <= i < |m'[k]|
      ensures k in m && i < |m[k]| && m'[k][i].id == m[k][i].id
    {
    }
  }

  /** Removing one note from a bucket keeps ids below the counter and
      distinct. */
  lemma RemoveKeepsIds<D, E>(
    m: map<(AccountId, D), seq<Note>>, other: map<(AccountId, E), seq<Note>>,
    counter: map<AccountId, u64>, key: (AccountId, D), k: nat)
    requires IdsBelow(m, counter) && IdsDistinct(m) && IdsApart(m, other)
    requires k < |Bucket(m, key)|
    ensures IdsBelow(m[key := Bucket(m, key)[..k] + Bucket(m, key)[k + 1..]], counter)
    ensures IdsDistinct(m[key := Bucket(m, key)[..k] + Bucket(m, key)[k + 1..]])
    ensures IdsApart(m[key := Bucket(m, key)[..k] + Bucket(m, key)[k + 1..]], other)
  {
    var b := Bucket(m, key);
    var m': map<(AccountId, D), seq<Note>> := m[key := b[..k] + b[k + 1..]];
    forall q: (AccountId, D), i: int | q in m' && 0 <= i < |m'[q]|
      ensures q in m
      ensures Shifted(q == key, i, k) < |m[q]|
      ensures m'[q][i] == m[q][Shifted(q == key, i, k)]
    {
    }
  }

  /** Where position `i` of a bucket with one note removed at `k` was
      before the removal. */
  function Shifted(removed: bool, i: nat, k: nat): nat
  {
    if removed && i >= k then i + 1 else i
  }

  /** Raising an account's counter keeps every stored note id below it. */
  lemma RaiseKeepsIdsBelow<D>(m: map<(AccountId, D), seq<Note>>, counter: map<AccountId, u64>, account: AccountId, v: u64)
    requires IdsBelow(m, counter) && v >= Counter(counter, account)
    ensures IdsBelow(m, counter[account := v])
  {
  }

  /** Raising an account's counter keeps every stored id below it. */
  lemma RaiseKeepsDoneBelow(done: map<(AccountId, Date), seq<u64>>, counter: map<AccountId, u64>, account: AccountId, v: u64)
    requires DoneBelow(done, counter) && v >= Counter(counter, account)
    ensures DoneBelow(done, counter[account := v])
  {
  }

  /** Appending an id below its account's counter to a completed list keeps
      every completed id below its counter. */
  lemma AppendKeepsDoneBelow(done: map<(AccountId, Date), seq<u64>>, counter: map<AccountId, u64>, key: (AccountId, Date), x: u64)
    requires DoneBelow(done, counter) && x < Counter(counter, key.0)
    ensures DoneBelow(done[key := Bucket(done, key) + [x]], counter)
  {
  }

  class Todo {
    /** One-off notes by account and date. */
    var notes: map<(AccountId, Date), seq<Note>>
    /** Repeating notes by account and weekday. */
    var repeatingNotes: map<(AccountId, DayOfWeek), seq<Note>>
    /** Ids of repeating notes completed on a date, by account and date. */
    var completedRepeatingNotes: map<(AccountId, Date), seq<u64>>
    /** The next id to hand out, by account. */
    var noteIdCounter: map<AccountId, u64>

    /** Stored notes have the shape their map demands, and every account's
        ids are distinct and below its counter. */
    ghost predicate Valid()
      reads this
    {
      && AllOneOff(notes)
      && AllTemplates(repeatingNotes)
      && IdsBelow(notes, noteIdCounter)
      && IdsBelow(repeatingNotes, noteIdCounter)
      && DoneBelow(completedRepeatingNotes, noteIdCounter)
      && IdsDistinct(notes)
      && IdsDistinct(repeatingNotes)
      && IdsApart(notes, repeatingNotes)
    }

    function NotesOf(account: AccountId, date: Date): seq<Note>
      reads this
    {
      Bucket(notes, (account, date))
    }

    function TemplatesOf(account: AccountId, day: DayOfWeek): seq<Note>
      reads this
    {
      Bucket(repeatingNotes, (account, day))
    }

    function CompletedOf(account: AccountId, date: Date): seq<u64>
      reads this
    {
      Bucket(completedRepeatingNotes, (account, date))
    }

    function CounterOf(account: AccountId): u64
      reads this
    {
      Counter(noteIdCounter, account)
    }

    /** `new`: empty storage. */
    constructor ()
      ensures Valid()
      ensures notes == map[] && repeatingNotes == map[]
      ensures completedRepeatingNotes == map[] && noteIdCounter == map[]
    {
      notes := map[];
      repeatingNotes := map[];
      completedRepeatingNotes := map[];
      noteIdCounter := map[];
    }

    /** `today`: the UTC date of the block time `now` (milliseconds). */
    static function Today(now: u64): (d: Date)
      requires SupportedTimestamp(now)
      ensures Gregorian.EPOCH_DAY + now / MS_PER_DAY < Gregorian.DaysBeforeYear(U16_LIMIT) ==>
        IsValidDate(d) && d.0 >= 1 && DayNumberOf(d) == Gregorian.EPOCH_DAY + now / MS_PER_DAY && FromUnchecked(d) == Ok(d)
    {
      if Gregorian.EPOCH_DAY + now / MS_PER_DAY < Gregorian.DaysBeforeYear(U16_LIMIT) then
        FromTimestampIsUtcDay(now);
        FromTimestamp(now)
      else
        FromTimestamp(now)
    }

    /** `is_today`: plain equality of triples with today's date. */
    static function IsToday(now: u64, date: Date): (b: bool)
      requires SupportedTimestamp(now)
      ensures b ==> Compare(date, Today(now)) == 0
    {
      Today(now) == date
    }

    /** `get_notes`: the caller's one-off notes for the date, then the
        repeating notes of its weekday, marked completed where the date's
        list has their id. Nothing is written. */
    method GetNotes(caller: AccountId, unchecked: UncheckedDate) returns (r: Result<seq<Note>, TodoError>)
      ensures FromUnchecked(unchecked).Err? ==> r == Err(InvalidDate)
      ensures FromUnchecked(unchecked).Ok? && DayOfWeekOf(FromUnchecked(unchecked).value).Err? ==>
        r == Err(InvalidDate)
      ensures FromUnchecked(unchecked).Ok? && DayOfWeekOf(FromUnchecked(unchecked).value).Ok? ==>
        r == Ok(View(
          NotesOf(caller, FromUnchecked(unchecked).value),
          TemplatesOf(caller, DayOfWeekOf(FromUnchecked(unchecked).value).value),
          CompletedOf(caller, FromUnchecked(unchecked).value)))
    {
      var date :- FromUnchecked(unchecked);
      var dayOfWeek :- DayOfWeekOf(date);
      var view := NotesOf(caller, date);
      var stored := TemplatesOf(caller, dayOfWeek);
      var done := CompletedOf(caller, date);

      var completed: set<u64> := {};
      var i := 0;
      while i < |done|
        invariant 0 <= i <= |done|
        invariant completed == IdSet(done[..i])
      {
        completed := completed + {done[i]};
        i := i + 1;
      }
      assert done[..i] == done;

      var templates := stored;
      var j := 0;
      while j < |templates|
        invariant 0 <= j <= |templates| == |stored|
        invariant forall k :: 0 <= k < j ==> templates[k] == Occurrence(stored[k], completed)
        invariant forall k :: j <= k < |templates| ==> templates[k] == stored[k]
      {
        if templates[j].id in completed {
          templates := templates[j := templates[j].(completed := true)];
        }
        j := j + 1;
      }
      assert templates == Occurrences(stored, completed);
      return Ok(view + templates);
    }

    /** `get_repeating_notes`: the caller's repeating notes for the weekday,
        as stored. */
    function GetRepeatingNotes(caller: AccountId, day: DayOfWeek): (r: Result<seq<Note>, TodoError>)
      reads this
      ensures r.Ok? && r.value == TemplatesOf(caller, day)
      ensures Valid() ==> forall i :: 0 <= i < |r.value| ==> r.value[i].isRepeating && !r.value[i].completed
    {
      Ok(TemplatesOf(caller, day))
    }

    /** `add_any_note`: hands out the account's counter as the new id,
        appends the new note to `bucket` and raises the counter by one. */
    method AddAnyNote(bucket: seq<Note>, account: AccountId, title: string, description: string, isRepeating: bool)
      returns (updated: seq<Note>, id: u64)
      requires Valid()
      requires CounterOf(account) < U64_LIMIT - 1
      modifies this`noteIdCounter
      ensures Valid()
      ensures id == old(CounterOf(account))
      ensures updated == bucket + [New(id, title, description, isRepeating)]
      ensures noteIdCounter == old(noteIdCounter)[account := id + 1]
    {
      id := CounterOf(account);
      RaiseKeepsIdsBelow(notes, noteIdCounter, account, id + 1);
      RaiseKeepsIdsBelow(repeatingNotes, noteIdCounter, account, id + 1);
      RaiseKeepsDoneBelow(completedRepeatingNotes, noteIdCounter, account, id + 1);
      var note := New(id, title, description, isRepeating);
      updated := bucket + [note];
      noteIdCounter := noteIdCounter[account := id + 1];
    }

    /** The first position in `bucket` of the note with id `id`. */
    static method FindNote(bucket: seq<Note>, id: u64) returns (r: Option<nat>)
      ensures r == IndexOf(bucket, id)
    {
      var i := 0;
      while i < |bucket|
        invariant 0 <= i <= |bucket|
        invariant forall j :: 0 <= j < i ==> bucket[j].id != id
      {
        if bucket[i].id == id {
          return Some(i);
        }
        i := i + 1;
      }
      return None;
    }

    /** `edit_any_note`: the first note with id `id` gets the new title and
        description; everything else stays. An unknown id is an error. */
    static method EditAnyNote(bucket: seq<Note>, id: u64, title: string, description: string)
      returns (r: Result<seq<Note>, TodoError>)
      ensures IndexOf(bucket, id).None? ==> r == Err(NoteIdDoesntExist)
      ensures IndexOf(bucket, id).Some? ==>
        r == Ok(bucket[IndexOf(bucket, id).value :=
          bucket[IndexOf(bucket, id).value].(title := title, description := description)])
    {
      var found := FindNote(bucket, id);
      if found.None? {
        return Err(NoteIdDoesntExist);
      }
      var k := found.value;
      r := Ok(bucket[k := bucket[k].(title := title, description := description)]);
    }

    /** `delete_any_note`: the first note with id `id` is removed and the
        others keep their order. An unknown id is an error. */
    static method DeleteAnyNote(bucket: seq<Note>, id: u64) returns (r: Result<seq<Note>, TodoError>)
      ensures IndexOf(bucket, id).None? ==> r == Err(NoteIdDoesntExist)
      ensures IndexOf(bucket, id).Some? ==> r.Ok? && |r.value| == |bucket| - 1
      ensures IndexOf(bucket, id).Some? ==>
        r.value == bucket[..IndexOf(bucket, id).value] + bucket[IndexOf(bucket, id).value + 1..]
    {
      var found := FindNote(bucket, id);
      if found.None? {
        return Err(NoteIdDoesntExist);
      }
      var k := found.value;
      r := Ok(bucket[..k] + bucket[k + 1..]);
    }

    /** Lines 88-94 of `add_note`, once the date has passed the policy: a
        new one-off note goes to the end of the date's bucket. */
    method StoreNote(caller: AccountId, date: Date, title: string, description: string) returns (id: u64)
      requires Valid()
      requires CounterOf(caller) < U64_LIMIT - 1
      modifies this
      ensures Valid()
      ensures id == old(CounterOf(caller))
      ensures notes == old(notes)[(caller, date) := old(NotesOf(caller, date)) + [New(id, title, description, false)]]
      ensures noteIdCounter == old(noteIdCounter)[caller := id + 1]
      ensures repeatingNotes == old(repeatingNotes)
      ensures completedRepeatingNotes == old(completedRepeatingNotes)
    {
      var key := (caller, date);
      var bucket := NotesOf(caller, date);
      var n := New(CounterOf(caller), title, description, false);
      AppendKeepsIds(notes, repeatingNotes, noteIdCounter, key, n);
      RaiseKeepsDoneBelow(completedRepeatingNotes, noteIdCounter, caller, n.id + 1);
      PutOneOffs(notes, key, bucket + [n]);
      var updated;
      updated, id := AddAnyNote(bucket, caller, title, description, false);
      notes := notes[key := updated];
    }

    /** `add_note`: an invalid date is refused, then a date before today by
        `Compare`; otherwise a new one-off note goes to the end of the date's
        bucket and its id, the caller's counter, is returned. */
    method AddNote(caller: AccountId, now: u64, unchecked: UncheckedDate, title: string, description: string)
      returns (r: Result<u64, TodoError>)
      requires Valid()
      requires FromUnchecked(unchecked).Ok? ==> SupportedTimestamp(now)
      requires FromUnchecked(unchecked).Ok? && Compare(FromUnchecked(unchecked).value, Today(now)) >= 0 ==>
        CounterOf(caller) < U64_LIMIT - 1
      modifies this
      ensures Valid()
      ensures FromUnchecked(unchecked).Err? ==> r == Err(InvalidDate) && unchanged(this)
      ensures FromUnchecked(unchecked).Ok? && Compare(FromUnchecked(unchecked).value, Today(now)) < 0 ==>
        r == Err(CantAddNoteEarlierThanToday) && unchanged(this)
      ensures FromUnchecked(unchecked).Ok? && Compare(FromUnchecked(unchecked).value, Today(now)) >= 0 ==>
        && r == Ok(old(CounterOf(caller)))
        && notes == old(notes)[(caller, FromUnchecked(unchecked).value) :=
             old(NotesOf(caller, FromUnchecked(unchecked).value)) + [New(r.value, title, description, false)]]
        && noteIdCounter == old(noteIdCounter)[caller := r.value + 1]
        && repeatingNotes == old(repeatingNotes)
        && completedRepeatingNotes == old(completedRepeatingNotes)
    {
      var date :- FromUnchecked(unchecked);
      if Compare(date, Today(now)) < 0 {
        return Err(CantAddNoteEarlierThanToday);
      }
      var id := StoreNote(caller, date, title, description);
      r := Ok(id);
    }

    /** `add_repeating_note`: a new repeating note goes to the end of the
        weekday's bucket and its id, the caller's counter, is returned. */
    method AddRepeatingNote(caller: AccountId, day: DayOfWeek, title: string, description: string)
      returns (id: u64)
      requires Valid()
      requires CounterOf(caller) < U64_LIMIT - 1
      modifies this
      ensures Valid()
      ensures id == old(CounterOf(caller))
      ensures repeatingNotes == old(repeatingNotes)[(caller, day) :=
        old(TemplatesOf(caller, day)) + [New(id, title, description, true)]]
      ensures noteIdCounter == old(noteIdCounter)[caller := id + 1]
      ensures notes == old(notes)
      ensures completedRepeatingNotes == old(completedRepeatingNotes)
    {
      var key := (caller, day);
      var bucket := TemplatesOf(caller, day);
      var n := New(CounterOf(caller), title, description, true);
      ApartSymmetric(notes, repeatingNotes);
      AppendKeepsIds(repeatingNotes, notes, noteIdCounter, key, n);
      RaiseKeepsDoneBelow(completedRepeatingNotes, noteIdCounter, caller, n.id + 1);
      PutTemplates(repeatingNotes, key, bucket + [n]);
      var updated;
      updated, id := AddAnyNote(bucket, caller, title, description, true);
      repeatingNotes := repeatingNotes[key := updated];
      ApartSymmetric(repeatingNotes, notes);
    }

    /** Lines 119-125 of `edit_note`, once the date has passed the policy. */
    method EditStoredNote(caller: AccountId, date: Date, id: u64, title: string, description: string)
      returns (r: Result<(), TodoError>)
      requires Valid()
      modifies this
      ensures Valid()
      ensures IndexOf(old(NotesOf(caller, date)), id).None? ==> r == Err(NoteIdDoesntExist) && unchanged(this)
      ensures IndexOf(old(NotesOf(caller, date)), id).Some? ==>
        var b, k := old(NotesOf(caller, date)), IndexOf(old(NotesOf(caller, date)), id).value;
        && r == Ok(())
        && notes == old(notes)[(caller, date) := b[k := b[k].(title := title, description := description)]]
        && repeatingNotes == old(repeatingNotes)
        && completedRepeatingNotes == old(completedRepeatingNotes)
        && noteIdCounter == old(noteIdCounter)
    {
      var key := (caller, date);
      var edited :- EditAnyNote(NotesOf(caller, date), id, title, description);
      ReplaceKeepsIds(notes, repeatingNotes, noteIdCounter, key, edited);
      PutOneOffs(notes, key, edited);
      notes := notes[key := edited];
      r := Ok(());
    }

    /** `edit_note`: an invalid date is refused, then today or an earlier
        date by `Compare`, then an unknown id; otherwise only the note's title
        and description change. */
    method EditNote(caller: AccountId, now: u64, unchecked: UncheckedDate, id: u64, title: string, description: string)
      returns (r: Result<(), TodoError>)
      requires Valid()
      requires FromUnchecked(unchecked).Ok? ==> SupportedTimestamp(now)
      modifies this
      ensures Valid()
      ensures FromUnchecked(unchecked).Err? ==> r == Err(InvalidDate) && unchanged(this)
      ensures FromUnchecked(unchecked).Ok? && Compare(FromUnchecked(unchecked).value, Today(now)) <= 0 ==>
        r == Err(CantEditTodayOrEarlierNotes) && unchanged(this)
      ensures FromUnchecked(unchecked).Ok? && Compare(FromUnchecked(unchecked).value, Today(now)) > 0 ==>
        var date := FromUnchecked(unchecked).value;
        && (IndexOf(old(NotesOf(caller, date)), id).None? ==> r == Err(NoteIdDoesntExist) && unchanged(this))
        && (IndexOf(old(NotesOf(caller, date)), id).Some? ==>
          var b, k := old(NotesOf(caller, date)), IndexOf(old(NotesOf(caller, date)), id).value;
          && r == Ok(())
          && notes == old(notes)[(caller, date) := b[k := b[k].(title := title, description := description)]]
          && repeatingNotes == old(repeatingNotes)
          && completedRepeatingNotes == old(completedRepeatingNotes)
          && noteIdCounter == old(noteIdCounter))
    {
      var date :- FromUnchecked(unchecked);
      if Compare(date, Today(now)) <= 0 {
        return Err(CantEditTodayOrEarlierNotes);
      }
      r := EditStoredNote(caller, date, id, title, description);
    }

    /** `edit_repeating_note`: as `edit_note` on the weekday's bucket, with no
        date policy. */
    method EditRepeatingNote(caller: AccountId, day: DayOfWeek, id: u64, title: string, description: string)
      returns (r: Result<(), TodoError>)
      requires Valid()
      modifies this
      ensures Valid()
      ensures IndexOf(old(TemplatesOf(caller, day)), id).None? ==> r == Err(NoteIdDoesntExist) && unchanged(this)
      ensures IndexOf(old(TemplatesOf(caller, day)), id).Some? ==>
        var b, k := old(TemplatesOf(caller, day)), IndexOf(old(TemplatesOf(caller, day)), id).value;
        && r == Ok(())
        && repeatingNotes == old(repeatingNotes)[(caller, day) := b[k := b[k].(title := title, description := description)]]
        && notes == old(notes)
        && completedRepeatingNotes == old(completedRepeatingNotes)
        && noteIdCounter == old(noteIdCounter)
    {
      var key := (caller, day);
      var edited :- EditAnyNote(TemplatesOf(caller, day), id, title, description);
      ApartSymmetric(notes, repeatingNotes);
      ReplaceKeepsIds(repeatingNotes, notes, noteIdCounter, key, edited);
      PutTemplates(repeatingNotes, key, edited);
      repeatingNotes := repeatingNotes[key := edited];
      ApartSymmetric(repeatingNotes, notes);
      r := Ok(());
    }

    /** Lines 149-155 of `delete_note`, once the date has passed the policy. */
    method DeleteStoredNote(caller: AccountId, date: Date, id: u64) returns (r: Result<(), TodoError>)
      requires Valid()
      modifies this
      ensures Valid()
      ensures IndexOf(old(NotesOf(caller, date)), id).None? ==> r == Err(NoteIdDoesntExist) && unchanged(this)
      ensures IndexOf(old(NotesOf(caller, date)), id).Some? ==>
        var b, k := old(NotesOf(caller, date)), IndexOf(old(NotesOf(caller, date)), id).value;
        && r == Ok(())
        && notes == old(notes)[(caller, date) := b[..k] + b[k + 1..]]
        && repeatingNotes == old(repeatingNotes)
        && completedRepeatingNotes == old(completedRepeatingNotes)
        && noteIdCounter == old(noteIdCounter)
    {
      var key := (caller, date);
      var bucket := NotesOf(caller, date);
      var remaining :- DeleteAnyNote(bucket, id);
      var k := IndexOf(bucket, id).value;
      assert remaining == bucket[..k] + bucket[k + 1..];
      RemoveKeepsIds(notes, repeatingNotes, noteIdCounter, key, k);
      PutOneOffs(notes, key, remaining);
      notes := notes[key := remaining];
      r := Ok(());
    }

    /** `delete_note`: an invalid date is refused, then today or an earlier
        date by `Compare`, then an unknown id; otherwise the first note with
        the id leaves the date's bucket. The repeating notes are not
        searched. */
    method DeleteNote(caller: AccountId, now: u64, unchecked: UncheckedDate, id: u64)
      returns (r: Result<(), TodoError>)
      requires Valid()
      requires FromUnchecked(unchecked).Ok? ==> SupportedTimestamp(now)
      modifies this
      ensures Valid()
      ensures FromUnchecked(unchecked).Err? ==> r == Err(InvalidDate) && unchanged(this)
      ensures FromUnchecked(unchecked).Ok? && Compare(FromUnchecked(unchecked).value, Today(now)) <= 0 ==>
        r == Err(CantDeleteTodayOrEarlierNotes) && unchanged(this)
      ensures FromUnchecked(unchecked).Ok? && Compare(FromUnchecked(unchecked).value, Today(now)) > 0 ==>
        var date := FromUnchecked(unchecked).value;
        && (IndexOf(old(NotesOf(caller, date)), id).None? ==> r == Err(NoteIdDoesntExist) && unchanged(this))
        && (IndexOf(old(NotesOf(caller, date)), id).Some? ==>
          var b, k := old(NotesOf(caller, date)), IndexOf(old(NotesOf(caller, date)), id).value;
          && r == Ok(())
          && notes == old(notes)[(caller, date) := b[..k] + b[k + 1..]]
          && repeatingNotes == old(repeatingNotes)
          && completedRepeatingNotes == old(completedRepeatingNotes)
          && noteIdCounter == old(noteIdCounter))
    {
      var date :- FromUnchecked(unchecked);
      if Compare(date, Today(now)) <= 0 {
        return Err(CantDeleteTodayOrEarlierNotes);
      }
      r := DeleteStoredNote(caller, date, id);
    }

    /** `delete_repeating_note`: as `delete_note` on the weekday's bucket,
        with no date policy. */
    method DeleteRepeatingNote(caller: AccountId, day: DayOfWeek, id: u64)
      returns (r: Result<(), TodoError>)
      requires Valid()
      modifies this
      ensures Valid()
      ensures IndexOf(old(TemplatesOf(caller, day)), id).None? ==> r == Err(NoteIdDoesntExist) && unchanged(this)
      ensures IndexOf(old(TemplatesOf(caller, day)), id).Some? ==>
        var b, k := old(TemplatesOf(caller, day)), IndexOf(old(TemplatesOf(caller, day)), id).value;
        && r == Ok(())
        && repeatingNotes == old(repeatingNotes)[(caller, day) := b[..k] + b[k + 1..]]
        && notes == old(notes)
        && completedRepeatingNotes == old(completedRepeatingNotes)
        && noteIdCounter == old(noteIdCounter)
    {
      var key := (caller, day);
      var bucket := TemplatesOf(caller, day);
      var remaining :- DeleteAnyNote(bucket, id);
      ApartSymmetric(notes, repeatingNotes);
      RemoveKeepsIds(repeatingNotes, notes, noteIdCounter, key, IndexOf(bucket, id).value);
      PutTemplates(repeatingNotes, key, remaining);
      repeatingNotes := repeatingNotes[key := remaining];
      ApartSymmetric(repeatingNotes, notes);
      r := Ok(());
    }

    /** Lines 180-203 of `complete_note`, once the date is known to be today:
        a one-off note of the date is marked completed in place; failing
        that, a repeating note of the weekday gets its id appended to the
        date's completed list (again if it is there already); failing both,
        the id is unknown. */
    method CompleteStoredNote(caller: AccountId, date: Date, day: DayOfWeek, id: u64)
      returns (r: Result<(), TodoError>)
      requires Valid()
      modifies this
      ensures Valid()
      ensures IndexOf(old(NotesOf(caller, date)), id).Some? ==>
        var b, k := old(NotesOf(caller, date)), IndexOf(old(NotesOf(caller, date)), id).value;
        && r == Ok(())
        && notes == old(notes)[(caller, date) := b[k := b[k].(completed := true)]]
        && repeatingNotes == old(repeatingNotes)
        && completedRepeatingNotes == old(completedRepeatingNotes)
        && noteIdCounter == old(noteIdCounter)
      ensures IndexOf(old(NotesOf(caller, date)), id).None? && IndexOf(old(TemplatesOf(caller, day)), id).Some? ==>
        && r == Ok(())
        && completedRepeatingNotes == old(completedRepeatingNotes)[(caller, date) := old(CompletedOf(caller, date)) + [id]]
        && notes == old(notes)
        && repeatingNotes == old(repeatingNotes)
        && noteIdCounter == old(noteIdCounter)
      ensures IndexOf(old(NotesOf(caller, date)), id).None? && IndexOf(old(TemplatesOf(caller, day)), id).None? ==>
        r == Err(NoteIdDoesntExist) && unchanged(this)
    {
      var key := (caller, date);
      var bucket := NotesOf(caller, date);
      var templates := TemplatesOf(caller, day);
      var note := FindNote(bucket, id);
      var noteRepeating := FindNote(templates, id);
      if note.Some? {
        var k := note.value;
        var marked := bucket[k := bucket[k].(completed := true)];
        ReplaceKeepsIds(notes, repeatingNotes, noteIdCounter, key, marked);
        PutOneOffs(notes, key, marked);
        notes := notes[key := marked];
      } else if noteRepeating.Some? {
        var completed := CompletedOf(caller, date) + [templates[noteRepeating.value].id];
        AppendKeepsDoneBelow(completedRepeatingNotes, noteIdCounter, key, id);
        completedRepeatingNotes := completedRepeatingNotes[key := completed];
      } else {
        return Err(NoteIdDoesntExist);
      }
      r := Ok(());
    }

    /** `complete_note`: an invalid date is refused, then a date that is not
        today (by equality of triples, not by `Compare`); then the note is
        completed as `CompleteStoredNote` says. */
    method CompleteNote(caller: AccountId, now: u64, unchecked: UncheckedDate, id: u64)
      returns (r: Result<(), TodoError>)
      requires Valid()
      requires FromUnchecked(unchecked).Ok? && DayOfWeekOf(FromUnchecked(unchecked).value).Ok? ==>
        SupportedTimestamp(now)
      modifies this
      ensures Valid()
      ensures FromUnchecked(unchecked).Err? ==> r == Err(InvalidDate) && unchanged(this)
      ensures FromUnchecked(unchecked).Ok? && DayOfWeekOf(FromUnchecked(unchecked).value).Err? ==>
        r == Err(InvalidDate) && unchanged(this)
      ensures
        && FromUnchecked(unchecked).Ok? && DayOfWeekOf(FromUnchecked(unchecked).value).Ok?
        && !IsToday(now, FromUnchecked(unchecked).value)
        ==> r == Err(CantCompleteNoteNotFromToday) && unchanged(this)
      ensures
        && FromUnchecked(unchecked).Ok? && DayOfWeekOf(FromUnchecked(unchecked).value).Ok?
        && IsToday(now, FromUnchecked(unchecked).value)
        ==>
        var date, day := FromUnchecked(unchecked).value, DayOfWeekOf(FromUnchecked(unchecked).value).value;
        && (IndexOf(old(NotesOf(caller, date)), id).Some? ==>
          var b, k := old(NotesOf(caller, date)), IndexOf(old(NotesOf(caller, date)), id).value;
          && r == Ok(())
          && notes == old(notes)[(caller, date) := b[k := b[k].(completed := true)]]
          && repeatingNotes == old(repeatingNotes)
          && completedRepeatingNotes == old(completedRepeatingNotes)
          && noteIdCounter == old(noteIdCounter))
        && (IndexOf(old(NotesOf(caller, date)), id).None? && IndexOf(old(TemplatesOf(caller, day)), id).Some? ==>
          && r == Ok(())
          && completedRepeatingNotes == old(completedRepeatingNotes)[(caller, date) := old(CompletedOf(caller, date)) + [id]]
          && notes == old(notes)
          && repeatingNotes == old(repeatingNotes)
          && noteIdCounter == old(noteIdCounter))
        && (IndexOf(old(NotesOf(caller, date)), id).None? && IndexOf(old(TemplatesOf(caller, day)), id).None? ==>
          r == Err(NoteIdDoesntExist) && unchanged(this))
    {
      var date :- FromUnchecked(unchecked);
      var day :- DayOfWeekOf(date);
      if !IsToday(now, date) {
        return Err(CantCompleteNoteNotFromToday);
      }
      r := CompleteStoredNote(caller, date, day, id);
    }
  }

  // ---------------------------------------------------------------------
  // Consequences of the invariant and of the date policy
  // ---------------------------------------------------------------------

  /** The id an add hands out, the caller's counter, is not stored anywhere
      for the caller yet. */
  lemma CounterIsFresh(t: Todo, caller: AccountId, date: Date, day: DayOfWeek)
    requires t.Valid()
    ensures forall i :: 0 <= i < |t.NotesOf(caller, date)| ==> t.NotesOf(caller, date)[i].id != t.CounterOf(caller)
    ensures forall i :: 0 <= i < |t.TemplatesOf(caller, day)| ==> t.TemplatesOf(caller, day)[i].id != t.CounterOf(caller)
  {
    forall i | 0 <= i < |t.NotesOf(caller, date)|
      ensures t.NotesOf(caller, date)[i].id < t.CounterOf(caller)
    {
      assert (caller, date) in t.notes;
    }
    forall i | 0 <= i < |t.TemplatesOf(caller, day)|
      ensures t.TemplatesOf(caller, day)[i].id < t.CounterOf(caller)
    {
      assert (caller, day) in t.repeatingNotes;
    }
  }

  /** In a valid store, a repeating note shows as completed in the
      `get_notes` view of a date exactly when its id is in the date's
      completed list. */
  lemma ViewShowsCompletion(t: Todo, caller: AccountId, date: Date, day: DayOfWeek, i: nat)
    requires t.Valid()
    requires i < |t.TemplatesOf(caller, day)|
    ensures
      View(t.NotesOf(caller, date), t.TemplatesOf(caller, day), t.CompletedOf(caller, date))[|t.NotesOf(caller, date)| + i].completed
      <==> t.TemplatesOf(caller, day)[i].id in t.CompletedOf(caller, date)
  {
    assert (caller, day) in t.repeatingNotes;
    ViewCompletion(t.NotesOf(caller, date), t.TemplatesOf(caller, day), t.CompletedOf(caller, date), i);
  }

  /** Away from the month-end tie, the policy of `add_note` ("earlier than
      today": `Compare < 0`) and of `edit_note` and `delete_note` ("today or
      earlier": `Compare <= 0`) is the calendar's. */
  lemma PolicyIsChronologicalAwayFromTies(date: Date, today: Date)
    requires IsValidDate(date) && IsValidDate(today)
    requires !MonthEndTie(date, today) && !MonthEndTie(today, date)
    ensures Compare(date, today) < 0 <==> DayNumberOf(date) < DayNumberOf(today)
    ensures Compare(date, today) <= 0 <==> DayNumberOf(date) <= DayNumberOf(today)
  {
    if DayNumberOf(date) < DayNumberOf(today) {
      CompareNeverReversesChronology(date, today);
      CompareTiesExactly(date, today);
    } else if DayNumberOf(date) == DayNumberOf(today) {
      SameDayNumberSameDate(date, today);
      CompareAntisymmetric(date, today);
    } else {
      CompareNeverReversesChronology(today, date);
      CompareTiesExactly(today, date);
      CompareAntisymmetric(date, today);
    }
  }

  /** On the 31st of a month other than December, `edit_note` and
      `delete_note` refuse the next day as "today or earlier". */
  lemma PolicyRefusesTomorrowOnThe31st(today: Date)
    requires IsValidDate(today) && today.0 >= 1 && today.1 < 12 && today.2 == 31
    ensures Gregorian.DayInRange(DayNumberOf(today) + 1)
    ensures AddDays(today, 1) == (today.0, today.1 + 1, 1)
    ensures Compare(AddDays(today, 1), today) == 0
  {
    AddOneDay(today);
  }

  /** On the 1st of a month that follows a 31-day month, `add_note` accepts
      the day before as not "earlier than today". */
  lemma PolicyAcceptsYesterdayOnThe1st(today: Date)
    requires IsValidDate(today) && today.0 >= 1 && 1 < today.1 && today.2 == 1
    requires Gregorian.DaysInMonth(today.0, today.1 - 1) == 31
    ensures Gregorian.DayInRange(DayNumberOf(today) - 1)
    ensures SubtractDays(today, 1) == (today.0, today.1 - 1, 31)
    ensures Compare(SubtractDays(today, 1), today) == 0
  {
    SubtractOneDay(today);
  }

  /** `complete_note` asks for today by equality: on a month-end tie the
      other day compares as equal to today but is not today. */
  lemma CompletionIsNotByCompare(now: u64, date: Date)
    requires SupportedTimestamp(now)
    requires MonthEndTie(date, Todo.Today(now)) || MonthEndTie(Todo.Today(now), date)
    ensures Compare(date, Todo.Today(now)) == 0
    ensures !Todo.IsToday(now, date)
  {
  }
}
