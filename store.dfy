/**
 * The App component as a store: the state held by `useReducer`, the client
 * id fixed when the page loads, and the procedures that change the state by
 * dispatching actions. Network calls are left out; where a procedure waits
 * for a response, the response is a parameter.
 */
module Store {
  import opened Wrappers
  import opened Notes
  import opened Reducer
  import Sync
  import ReducerProps

  class NoteStore {
    /** CLIENT_ID, the uuid drawn once when the page loads. */
    const clientId: Id
    var state: State

    constructor (clientId: Id)
      ensures this.clientId == clientId && state == InitialState
    {
      this.clientId := clientId;
      state := InitialState;
    }

    /** `dispatch`: the reducer applied to the current state. */
    method Dispatch(a: Action)
      requires Defined(state, a)
      modifies this
      ensures state == Reduce(old(state), a)
    {
      state := Reduce(state, a);
    }

    /** fetchNotes once the list query settles: the items, or None when it rejected. */
    method FetchNotes(response: Option<seq<Note>>)
      modifies this
      ensures response.Some? ==> state == old(state).(notes := response.value, loading := false)
      ensures response.None? ==> state == old(state).(loading := false, error := true)
    {
      match response
      case Some(items) => Dispatch(SetNotes(items));
      case None => Dispatch(Error);
    }

    /**
     * createNote, with `freshId` the uuid it draws. Returns whether the draft
     * passed validation; when it did not, only an alert is raised.
     */
    method CreateNote(freshId: Id) returns (created: bool)
      modifies this
      ensures created == Sync.FormComplete(old(state).form)
      ensures state == Sync.CreateNote(old(state), clientId, freshId)
      ensures !created ==> state == old(state)
      ensures created ==> state == State([Sync.NewNote(old(state).form, clientId, freshId)] + old(state).notes,
                                         old(state).loading, old(state).error, EmptyForm)
    {
      var form := state.form;
      if form.name == "" || form.description == "" {
        return false;
      }
      var note := Note(freshId, clientId, form.name, form.description, false);
      Dispatch(AddNote(note));
      Dispatch(ResetForm);
      created := true;
    }

    /**
     * updateNote, called with the note as displayed. Returns whether it reached
     * the dispatch; when the id is absent the write to `notes[-1]` throws first.
     */
    method UpdateNote(note: Note) returns (dispatched: bool)
      modifies this
      ensures dispatched == HasId(old(state).notes, note.id)
      ensures state == Sync.UpdateNote(old(state), note)
      ensures !dispatched ==> state == old(state)
    {
      var index := FindIndex(state.notes, note.id);
      if index == -1 {
        return false;
      }
      var notes := state.notes;
      notes := notes[index := notes[index].(completed := !note.completed)];
      Dispatch(SetNotes(notes));
      dispatched := true;
    }

    /** onChange: the input named `field` now holds `value`. */
    method OnChange(field: Field, value: string)
      modifies this
      ensures state == Reduce(old(state), SetInput(field, value))
      ensures state.notes == old(state).notes && state.loading == old(state).loading
      ensures state.error == old(state).error
    {
      Dispatch(SetInput(field, value));
    }

    /** The create subscription's `next` handler. */
    method OnCreateNote(note: Note)
      modifies this
      ensures state == Sync.OnCreateEvent(old(state), clientId, note)
      ensures note.clientId == clientId ==> state == old(state)
      ensures note.clientId != clientId ==> state.notes == [note] + old(state).notes
    {
      if clientId == note.clientId {
        return;
      }
      Dispatch(AddNote(note));
    }

    /** The delete subscription's `next` handler: REMOVE_NOTE for every event. */
    method OnDeleteNote(id: Id)
      modifies this
      ensures state == Reduce(old(state), RemoveNote(id))
      ensures HasId(old(state).notes, id) ==>
        var k := FindIndex(old(state).notes, id);
        state.notes == old(state).notes[..k] + old(state).notes[k + 1..]
    {
      if HasId(state.notes, id) {
        ReducerProps.RemovePresent(state, id);
      }
      Dispatch(RemoveNote(id));
    }

    /**
     * The update subscription's `next` handler: UPDATE_STATUS for every event.
     * The reducer throws when the id is not in the list.
     */
    method OnUpdateNote(id: Id)
      requires HasId(state.notes, id)
      modifies this
      ensures state == Reduce(old(state), UpdateStatus(id))
      ensures var k := FindIndex(old(state).notes, id);
        state.notes == old(state).notes[k := old(state).notes[k].(completed := true)]
    {
      Dispatch(UpdateStatus(id));
    }
  }
}
