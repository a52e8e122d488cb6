# Notes app: the client-side note store

This project models the state machine at the heart of the notes single-page
application in `src/App.js`. The page keeps one application state (the list of
notes, a loading flag, an error flag and the form draft) in a React
`useReducer` store. Every change goes through the reducer. It is driven by the
page's procedures: the initial fetch, creating a note from the form, toggling
a note's completion, typing into the form, and the three GraphQL subscription
handlers that apply other clients' creates, deletes and updates. Only
`createNote` stamps the new note with the per-page-load `CLIENT_ID`, so that
the create handler can recognise the echo of this client's own create. The
update mutation sends only `{ id, completed }` and the delete mutation only
`{ id }`.

The model has these modules:

- `Notes` (notes.dfy): the `Note`, `Form` and `State` records, the initial
  state, `findIndex` by id, and the completed/total counter shown above the
  list.
- `ArrayOps` (array_ops.dfy): JavaScript's `Array.prototype.slice`, including
  negative and out-of-range indices.
- `Reducer` (reducer.dfy): the actions and the reducer as a pure function
  `Reduce`. It is stated over immutable values. `Run` applies a sequence of
  dispatched actions, and gives `None` when the reducer throws.
- `ReducerProps` (reducer_props.dfy): what each action does, the add/remove
  round trip, the unique-id invariant, the counter after each action, and the
  flags over a whole run.
- `Sync` (sync.dfy): `createNote`, `updateNote` and the create-event handler
  as functions of the state, with the echo, validation and scenario
  properties.
- `Store` (store.dfy): class `NoteStore`. It holds the current state and the
  client id. Its methods dispatch step by step as the page's procedures do,
  and each is proved against the functions above.
- `Findings` (findings.dfy): three defects in the code. For each one there is
  a lemma showing the behaviour as written and a corrected definition with
  the intended property proved.

The model follows the code as written. In three places the code does not do
what it evidently means to do. All three are listed under "## Findings":

- REMOVE_NOTE with an id that is not in the list is not a no-op.
- UPDATE_STATUS always sets `completed` to true instead of toggling it.
- The update handler's echo check never fires.

The store, `Sync` and `ReducerProps` all use the reducer as written. The
corrected definitions in `Findings` serve as reference definitions. Lemmas
show that each one agrees with the code on inputs where the code behaves as
intended:

- removal, for an id that is present;
- the status change, for a note not yet completed;
- the update handler, for another client's completion of a present note.

Ids, the client id and the fresh uuid of a new note are plain strings given as
parameters. The network's responses are parameters too: `FetchNotes` takes
the list query's items, or `None` when the query rejected. Each subscription
event is a call of the matching handler method.

## Model

| member | source | states |
|---|---|---|
| Notes.FindIndex | src/App.js:37 | The result is -1 exactly when no note has the id. Otherwise it is the first index whose note has the id. |
| Notes.CompletedNotes | src/App.js:184 | The filter keeps only completed notes, keeps every completed note, and is no longer than the list. It has the list's length exactly when every note is completed, and is empty exactly when none is. |
| Notes.Counter | src/App.js:184-185 | The pair is (completed, total). Completed is at most the total, which is the list length. The two are equal exactly when all notes are completed, and completed is 0 exactly when none is. |
| ArrayOps.Slice | src/App.js:39-40 | `slice` never yields more elements than the list has. For indices within bounds it is the subsequence between them. |
| Reducer.Defined | src/App.js:49 | The reducer is defined for every action except UPDATE_STATUS whose id `findIndex` maps to -1. That is where the write to `notes[-1]` throws. |
| Reducer.Run | src/App.js:63 | Dispatches applied in order, with `None` when the reducer throws. A run without UPDATE_STATUS always reaches a state. |
| Reducer.Reduce | src/App.js:30-60 | The frame of every action. `loading` stays true unless SET_NOTES or ERROR is dispatched. `error` becomes true only on ERROR and is never cleared. The form changes only on RESET_FORM or SET_INPUT. The list changes only on SET_NOTES, ADD_NOTE, REMOVE_NOTE or UPDATE_STATUS. |
| ReducerProps.SetNotesReplaces | src/App.js:32-33 | SET_NOTES replaces the list wholesale and clears `loading`. `error` and the form are unchanged. |
| ReducerProps.AddNotePrepends | src/App.js:34-35 | ADD_NOTE puts the note at the head of the list. Nothing else changes. |
| ReducerProps.RemovePresent | src/App.js:36-41 | REMOVE_NOTE on a present id drops the note at its first index k, giving `notes[..k] + notes[k+1..]`. The length drops by one, the other notes keep their order, and the multiset loses exactly that note. Nothing else changes. |
| ReducerProps.RemoveAbsent | src/App.js:36-41 | REMOVE_NOTE on an absent id gives `notes[..n-1] + notes`, or `[]` when the list is empty. The list is unchanged exactly when it has at most one note. |
| ReducerProps.AddThenRemove | src/App.js:34-41 | ADD_NOTE followed by REMOVE_NOTE of the same note's id gives back the original state. |
| ReducerProps.UpdateStatusPresent | src/App.js:42-50 | UPDATE_STATUS on a present id marks the first note with that id completed. Every other note and every other field is unchanged. |
| ReducerProps.UpdateStatusIdempotent | src/App.js:42-50 | Two UPDATE_STATUS actions on the same id give the same state as one. The second one does not throw. |
| ReducerProps.UpdateStatusNeverUncompletes | src/App.js:49 | UPDATE_STATUS on a note that is already completed leaves the state unchanged, so it never toggles a note back. |
| ReducerProps.SetInputChangesOneField | src/App.js:53-54 | SET_INPUT sets the named form field to the value. The other field, the list and both flags are unchanged. |
| ReducerProps.ResetFormClears | src/App.js:51-52 | RESET_FORM sets the form to two empty strings. Nothing else changes. |
| ReducerProps.ErrorSetsFlags | src/App.js:55-56 | ERROR clears `loading` and sets `error`. The list and the form are unchanged. |
| ReducerProps.UnrecognizedIsIdentity | src/App.js:57-58 | An action of any other type returns a state equal to its input. |
| ReducerProps.UniqueIdsPreserved | src/App.js:30-60 | Unique ids stay unique under every action, provided ADD_NOTE adds a fresh id, SET_NOTES sets a list with unique ids and REMOVE_NOTE removes a present id. |
| ReducerProps.CounterAfterAdd | src/App.js:184-185 | After ADD_NOTE the total grows by one. The completed count grows by one exactly when the added note is completed. |
| ReducerProps.CounterAfterRemove | src/App.js:184-185 | After REMOVE_NOTE of a present id the total drops by one. The completed count drops by one exactly when the removed note was completed. |
| ReducerProps.CounterAfterUpdateStatus | src/App.js:184-185 | After UPDATE_STATUS the total is unchanged. The completed count grows by one exactly when the target was not completed. |
| ReducerProps.RunFlags | src/App.js:30-60 | After a run, `error` is set exactly when it was set before or an ERROR was dispatched. `loading` is still set exactly when it was set before and no SET_NOTES or ERROR was dispatched. |
| Sync.FormComplete | src/App.js:80 | The draft fails validation exactly when its name or its description is the empty string, the only falsy string. |
| Sync.CreateNote | src/App.js:77-86 | `createNote` as a function of the state. It adds one note exactly when the draft is complete, and then clears the form; otherwise the form is kept. The flags are unchanged. |
| Sync.UpdateNote | src/App.js:111-115 | `updateNote` as a function of the state. The length and the id at every index are unchanged. `loading` is cleared exactly when the id is present, since only then is SET_NOTES dispatched. `error` and the form are unchanged. |
| Sync.OnCreateEvent | src/App.js:137-141 | The create handler as a function of the state. It adds one note exactly when the note's client id is not this client's. The flags and the form are unchanged. |
| Sync.CreateRejected | src/App.js:80-82 | `createNote` with an empty name or an empty description leaves the state unchanged. |
| Sync.CreateAccepted | src/App.js:84-86 | With both fields filled, `createNote` prepends one note. That note has the fresh id, this client's id, the form's name and description, and `completed` false. The form is cleared and both flags are unchanged. |
| Sync.CreateKeepsUniqueIds | src/App.js:84-85 | With a fresh id, `createNote` keeps the ids in the list unique. |
| Sync.OwnCreateEchoDropped | src/App.js:137-141 | The create event echoing this client's new note leaves the state as `createNote` left it, so the note is not added twice. |
| Sync.ForeignCreateApplied | src/App.js:137-141 | A create event from another client prepends its note. Nothing else changes. |
| Sync.UpdateNoteSetsNegation | src/App.js:111-115 | `updateNote` on a present id sets that note's `completed` to the negation of the passed note's value. The other notes are unchanged, `loading` is cleared through SET_NOTES, and `error` and the form are unchanged. |
| Sync.UpdateNoteAbsent | src/App.js:112-114 | `updateNote` with an id not in the list changes nothing, because it throws before dispatching. |
| Sync.UpdateNoteTwice | src/App.js:111-115 | Toggling a displayed note twice gives back the original list, with `loading` cleared. |
| Sync.CreateFromInitialState | src/App.js:77-86 | From the initial state, typing "a" and "b" and creating gives exactly one note, not completed, and an empty form. |
| Sync.SetThenRemoveFirst | src/App.js:32-41 | SET_NOTES with two notes, then REMOVE_NOTE of the first note's id, leaves just the second. |
| Sync.CompleteThenUpdateEvent | src/App.js:159-174 | Completing a note and then receiving its update event keeps the note completed. The event does not throw. |
| Store.NoteStore.constructor | src/App.js:63 | The store starts in the initial state, holding the given client id. |
| Store.NoteStore.Dispatch | src/App.js:63 | `dispatch` replaces the state with the reducer's result. |
| Store.NoteStore.FetchNotes | src/App.js:65-75 | When the query succeeds, the list becomes its items and `loading` is cleared. When it fails, `loading` is cleared and `error` is set. Nothing else changes. |
| Store.NoteStore.CreateNote | src/App.js:77-97 | Returns whether the draft was complete. If it was not, the state is unchanged. Otherwise the new note is at the head, the form is empty and both flags are unchanged. The result equals `Sync.CreateNote`. |
| Store.NoteStore.UpdateNote | src/App.js:111-125 | Returns whether the id was present. If it was not, the state is unchanged. The result equals `Sync.UpdateNote`. |
| Store.NoteStore.OnChange | src/App.js:127-129 | The result is SET_INPUT with the input's name and value. The list and both flags are unchanged. |
| Store.NoteStore.OnCreateNote | src/App.js:137-141 | The client's own note leaves the state unchanged. Any other note is prepended. |
| Store.NoteStore.OnDeleteNote | src/App.js:148-151 | Every delete event dispatches REMOVE_NOTE. A present id drops its first note. |
| Store.NoteStore.OnUpdateNote | src/App.js:159-174 | Every update event dispatches UPDATE_STATUS, which sets the first note with that id to completed. |
| Findings.RemoveTwiceDuplicates | src/App.js:36-41 | As written: removing the head of `[a, b, c]` twice gives `[b, c]` and then `[b, b, c]`. |
| Findings.RemoveFirst | src/App.js:36-41 | Corrected removal. An absent id leaves the list unchanged, and a present one shortens it by one. No new ids appear. Unique ids stay unique and the id is then gone. |
| Findings.RemoveFirstIdempotent | src/App.js:36-41 | Corrected removal, applied twice to a list with unique ids, equals one removal. |
| Findings.RemoveAgreesWhenPresent | src/App.js:36-41 | On a present id, REMOVE_NOTE as written equals the corrected removal. |
| Findings.ToggleFirst | src/App.js:49 | Corrected status change. It keeps the length and the id at every index. |
| Findings.ToggleFirstTwice | src/App.js:49 | Toggling twice with the corrected definition gives back the list. |
| Findings.UpdateStatusAgreesWhenOpen | src/App.js:42-50 | On a note that is not yet completed, UPDATE_STATUS as written equals the corrected toggle. |
| Findings.UncompleteRevertedByEcho | src/App.js:45 | As written: this client un-completes a completed note. The update event echoing its own write then marks the note completed again. |
| Findings.OnUpdateEventChecked | src/App.js:159-174 | Corrected update handler. It never changes the flags or the form. It leaves the state unchanged for this client's own echo and for an id not in the list. |
| Findings.ForeignCompleteAgrees | src/App.js:159-174 | For another client's event completing a present note, the corrected handler equals UPDATE_STATUS as written. |
| Findings.OwnUpdateEchoDropped | src/App.js:159-174 | With the corrected handler, the echo of this client's toggle leaves the toggled state alone. |
| Findings.ForeignUpdateApplied | src/App.js:159-174 | With the corrected handler, another client's update sets the note's `completed` to the carried value and leaves the other notes unchanged. Repeating the event changes nothing more. |

## Left out

- Network calls are not modelled. This covers the list query, the create, update and delete mutations, and the subscription transport (`API.graphql`), along with `async`/`await` and the `try`/`catch` around them. They are calls into a managed backend. Only the dispatches around them are modelled.
- `deleteNote` is not modelled, because it only sends the delete mutation and dispatches nothing. The note leaves the local list only when the delete event arrives (`Store.NoteStore.OnDeleteNote`).
- The `useEffect` lifecycle is not modelled: subscribing on mount and unsubscribing on unmount. Neither is JSX rendering, antd components or styles. These are UI framework plumbing.
- `uuid()` is not modelled. `CLIENT_ID` and each new note's id are parameters.
- `console.log`, `console.error` and `alert` are not modelled. They only produce output. `alert` corresponds to `CreateNote` returning false.
- Aliasing is not modelled. UPDATE_STATUS and `updateNote` write `completed` into the note object that the previous state shares. The model gives only the new state's value, so it does not capture that the old state's note object changes too.
- `createNote` and `updateNote` read the `state` their render captured. The model reads the current state. The two agree when the page has re-rendered since the last dispatch.
- React may batch dispatches and render between them. The model applies each dispatch at once and in order.
- SET_INPUT with an input name other than `name` or `description` is not modelled. The page has only those two inputs.
- Every note has all five fields. Notes from the server with missing fields are not modelled.
- Reducer.Reduce: requires that UPDATE_STATUS names an id in the list. With an absent id, the code throws a TypeError when it writes to `notes[-1]`. `Reducer.Run` models that throw as `None`.
- Store.NoteStore.Dispatch: requires the same of an UPDATE_STATUS action, for the same reason.
- Store.NoteStore.OnUpdateNote: requires that the event's id is in the list. Otherwise the reducer throws, as above.

## Findings

| source | as written | input that shows it | evidently intended | confidence | as-written member | corrected member |
|---|---|---|---|---|---|---|
| src/App.js:37-40 | REMOVE_NOTE splices at `findIndex`'s result even when it is -1, giving `notes[..n-1] + notes` | remove the head of `[a, b, c]` twice, for example once by this client's delete echo and once by another client's delete: the result is `[b, c]`, then `[b, b, c]` | an absent id leaves the list unchanged, and removal is idempotent | high, not executed | Findings.RemoveTwiceDuplicates | Findings.RemoveFirst |
| src/App.js:49 | the new value is `!notes.completed`, the negation of an undefined property of the array, which is always true | UPDATE_STATUS on a completed note leaves it completed | toggle the note, `!notes[i].completed` | high, not executed | ReducerProps.UpdateStatusNeverUncompletes | Findings.ToggleFirst |
| src/App.js:45 | the echo check reads `clientId` of the index `i`, a number, so it never matches | this client un-completes a completed note; the echo of its own update completes it again | drop the echo of this client's own update, and apply the value carried by another client's update; this also needs `updateNote` to stamp `CLIENT_ID` on the mutation's input, which now sends only `{ id, completed }` (src/App.js:119) | high, not executed | Findings.UncompleteRevertedByEcho | Findings.OnUpdateEventChecked |
