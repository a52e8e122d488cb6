/**
 * The App component's procedures that drive the reducer, each as the state
 * it leaves behind: createNote, updateNote and the create-subscription
 * handler with its echo check. The properties below are what these
 * procedures promise to a user of the page and to the other clients.
 */
module Sync {
  import opened Notes
  import opened Reducer
  import ReducerProps

  /** createNote's check `!form.name || !form.description`: an empty string is falsy. */
  predicate FormComplete(form: Form): (b: bool)
    ensures !b <==> form.name == [] || form.description == []
  {
    form.name != "" && form.description != ""
  }

  /** The note createNote builds from the draft: `{ ...form, clientId, completed: false, id }`. */
  function NewNote(form: Form, clientId: Id, freshId: Id): Note {
    Note(freshId, clientId, form.name, form.description, false)
  }

  /**
   * createNote: with an incomplete draft it only raises an alert; otherwise it
   * dispatches ADD_NOTE with the new note and then RESET_FORM, before the
   * create request is sent.
   */
  function CreateNote(s: State, clientId: Id, freshId: Id): (r: State)
    ensures r.loading == s.loading && r.error == s.error
    ensures |r.notes| == |s.notes| + (if FormComplete(s.form) then 1 else 0)
    ensures r.form == (if FormComplete(s.form) then EmptyForm else s.form)
  {
    if !FormComplete(s.form) then s
    else Reduce(Reduce(s, AddNote(NewNote(s.form, clientId, freshId))), ResetForm)
  }

  /**
   * updateNote: copies the list, writes `!note.completed` into the first note
   * with the id and dispatches SET_NOTES with the copy. When the id is absent
   * the write to `notes[-1]` throws inside the async function, which rejects
   * before anything is dispatched.
   */
  function UpdateNote(s: State, note: Note): (r: State)
    ensures |r.notes| == |s.notes|
    ensures forall j :: 0 <= j < |s.notes| ==> r.notes[j].id == s.notes[j].id
    ensures r.loading == (s.loading && !HasId(s.notes, note.id))
    ensures r.error == s.error && r.form == s.form
  {
    var index := FindIndex(s.notes, note.id);
    if index == -1 then s
    else Reduce(s, SetNotes(s.notes[index := s.notes[index].(completed := !note.completed)]))
  }

  /** The create subscription's handler: drop the echo of this client's own note, else ADD_NOTE. */
  function OnCreateEvent(s: State, clientId: Id, note: Note): (r: State)
    ensures r.loading == s.loading && r.error == s.error && r.form == s.form
    ensures |r.notes| == |s.notes| + (if note.clientId == clientId then 0 else 1)
  {
    if note.clientId == clientId then s else Reduce(s, AddNote(note))
  }

  lemma CreateRejected(s: State, clientId: Id, freshId: Id)
    requires !FormComplete(s.form)
    ensures CreateNote(s, clientId, freshId) == s
  {
  }

  /**
   * A complete draft becomes a new, not completed note at the head of the
   * list, stamped with this client's id and the fresh id, and the form is
   * cleared.
   */
  lemma CreateAccepted(s: State, clientId: Id, freshId: Id)
    requires FormComplete(s.form)
    ensures var r := CreateNote(s, clientId, freshId);
      && r.notes == [Note(freshId, clientId, s.form.name, s.form.description, false)] + s.notes
      && r.form == Form("", "") && r.loading == s.loading && r.error == s.error
  {
  }

  lemma CreateKeepsUniqueIds(s: State, clientId: Id, freshId: Id)
    requires UniqueIds(s.notes) && !HasId(s.notes, freshId)
    ensures UniqueIds(CreateNote(s, clientId, freshId).notes)
  {
    if FormComplete(s.form) {
      ReducerProps.UniqueAfterPrepend(s.notes, NewNote(s.form, clientId, freshId));
    }
  }

  /** The echo of a note this client created is dropped: the note is not added twice. */
  lemma OwnCreateEchoDropped(s: State, clientId: Id, freshId: Id)
    ensures var r := CreateNote(s, clientId, freshId);
      OnCreateEvent(r, clientId, NewNote(s.form, clientId, freshId)) == r
  {
  }

  /** A note created by another client appears at the head of the list. */
  lemma ForeignCreateApplied(s: State, clientId: Id, note: Note)
    requires note.clientId != clientId
    ensures OnCreateEvent(s, clientId, note) == State([note] + s.notes, s.loading, s.error, s.form)
  {
  }

  /**
   * updateNote on a present id sets that note's completed flag to the
   * negation of the passed note's flag, leaves every other note as it was and
   * clears loading through SET_NOTES.
   */
  lemma UpdateNoteSetsNegation(s: State, note: Note)
    requires HasId(s.notes, note.id)
    ensures var k, r := FindIndex(s.notes, note.id), UpdateNote(s, note);
      && |r.notes| == |s.notes|
      && r.notes[k] == s.notes[k].(completed := !note.completed)
      && (forall j :: 0 <= j < |s.notes| && j != k ==> r.notes[j] == s.notes[j])
      && !r.loading && r.error == s.error && r.form == s.form
  {
  }

  lemma UpdateNoteAbsent(s: State, note: Note)
    requires !HasId(s.notes, note.id)
    ensures UpdateNote(s, note) == s
  {
  }

  /**
   * Clicking a note's toggle twice, each time on the note as then displayed,
   * gives back the list it started from.
   */
  lemma UpdateNoteTwice(s: State, k: nat)
    requires k < |s.notes| && FindIndex(s.notes, s.notes[k].id) == k
    ensures var t := UpdateNote(s, s.notes[k]);
      k < |t.notes| && UpdateNote(t, t.notes[k]) == s.(loading := false)
  {
    var t := UpdateNote(s, s.notes[k]);
    ReducerProps.FindIndexSameIds(s.notes, t.notes, s.notes[k].id);
    var u := UpdateNote(t, t.notes[k]);
    assert u.notes == s.notes;
  }

  /** Typing "a" and "b" into the empty form and creating gives one fresh, not completed note. */
  lemma CreateFromInitialState(clientId: Id, freshId: Id)
    ensures var typed := Reduce(Reduce(InitialState, SetInput(Name, "a")), SetInput(Description, "b"));
      var r := CreateNote(typed, clientId, freshId);
      r.notes == [Note(freshId, clientId, "a", "b", false)] && r.form == EmptyForm
  {
  }

  /** After SET_NOTES with two notes, removing the first one's id leaves the second. */
  lemma SetThenRemoveFirst(s: State, first: Note, second: Note)
    ensures Reduce(Reduce(s, SetNotes([first, second])), RemoveNote(first.id)).notes == [second]
  {
    var t := Reduce(s, SetNotes([first, second]));
    assert FindIndex(t.notes, first.id) == 0;
  }

  /**
   * Completing a note and then receiving the update event for it, whoever
   * sent it, leaves the note completed.
   */
  lemma CompleteThenUpdateEvent(s: State, k: nat)
    requires k < |s.notes| && FindIndex(s.notes, s.notes[k].id) == k && !s.notes[k].completed
    ensures var t := UpdateNote(s, s.notes[k]);
      && Defined(t, UpdateStatus(s.notes[k].id))
      && t.notes[k].completed
      && Reduce(t, UpdateStatus(s.notes[k].id)) == t
  {
    var t := UpdateNote(s, s.notes[k]);
    ReducerProps.FindIndexSameIds(s.notes, t.notes, s.notes[k].id);
  }
}
