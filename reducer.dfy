/**
 * The reducer of the note store: the transition function from a state and a
 * dispatched action to the next state, and the sequence of states that the
 * store goes through as actions are dispatched one after another.
 */
module Reducer {
  import opened Wrappers
  import opened ArrayOps
  import opened Notes

  /** The dispatched actions, one constructor per `type` the reducer names, and any other type. */
  datatype Action =
    | SetNotes(notes: seq<Note>)
    | AddNote(note: Note)
    | RemoveNote(id: Id)
    | UpdateStatus(id: Id)
    | ResetForm
    | SetInput(field: Field, value: string)
    | Error
    | Unrecognized(tag: string)

  /**
   * The reducer returns a state for every action except UPDATE_STATUS on an
   * id that is not in the list: findIndex gives -1 and writing a property of
   * `notes[-1]`, which is undefined, throws a TypeError.
   */
  predicate Defined(s: State, a: Action): (b: bool)
    ensures !a.UpdateStatus? ==> b
    ensures a.UpdateStatus? ==> (b <==> FindIndex(s.notes, a.id) != -1)
  {
    a.UpdateStatus? ==> HasId(s.notes, a.id)
  }

  /** `{ ...form, [name]: value }` for the two inputs' names. */
  function SetField(form: Form, field: Field, value: string): Form {
    match field
    case Name => form.(name := value)
    case Description => form.(description := value)
  }

  /**
   * The reducer. Its contract is the frame of every action: which of the
   * four parts of the state an action may change.
   */
  function Reduce(s: State, a: Action): (r: State)
    requires Defined(s, a)
    ensures r.loading == (s.loading && !a.SetNotes? && !a.Error?)
    ensures r.error == (s.error || a.Error?)
    ensures r.form != s.form ==> a.ResetForm? || a.SetInput?
    ensures r.notes != s.notes ==> a.SetNotes? || a.AddNote? || a.RemoveNote? || a.UpdateStatus?
  {
    match a
    case SetNotes(notes) => s.(notes := notes, loading := false)
    case AddNote(note) => s.(notes := [note] + s.notes)
    case RemoveNote(id) =>
      var index := FindIndex(s.notes, id);
      s.(notes := Slice(s.notes, 0, index) + Slice(s.notes, index + 1, |s.notes|))
    case UpdateStatus(id) =>
      // The echo check compares the client id with a property of the index
      // `i`, a number, which is undefined; it never returns early. The new
      // value `!notes.completed` negates a property of the array, also
      // undefined, so the note is always marked completed.
      var i := FindIndex(s.notes, id);
      s.(notes := s.notes[i := s.notes[i].(completed := true)])
    case ResetForm => s.(form := EmptyForm)
    case SetInput(field, value) => s.(form := SetField(s.form, field, value))
    case Error => s.(loading := false, error := true)
    case Unrecognized(_) => s
  }

  /**
   * The store's state after the reducer has been applied to each action in
   * turn, or None when one of them throws.
   */
  function Run(s: State, actions: seq<Action>): (r: Option<State>)
    ensures (forall i :: 0 <= i < |actions| ==> !actions[i].UpdateStatus?) ==> r.Some?
    decreases |actions|
  {
    if |actions| == 0 then Some(s)
    else if !Defined(s, actions[0]) then None
    else Run(Reduce(s, actions[0]), actions[1..])
  }
}
