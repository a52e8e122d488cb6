/**
 * The note store's data: a note record, the form draft and the application
 * state held by the reducer, with the array queries the reducer and the
 * page make on the note list.
 */
module Notes {

  /** Note ids and client ids are uuid strings. */
  type Id = string

  datatype Note = Note(id: Id, clientId: Id, name: string, description: string, completed: bool)

  /** The form draft. Only the two inputs, named `name` and `description`, write to it. */
  datatype Form = Form(name: string, description: string)

  /** The `name` attribute of the input that raised a change event. */
  datatype Field = Name | Description

  datatype State = State(notes: seq<Note>, loading: bool, error: bool, form: Form)

  const EmptyForm: Form := Form("", "")

  /** The state before the first fetch completes. */
  const InitialState: State := State([], true, false, EmptyForm)

  predicate HasId(notes: seq<Note>, id: Id) {
    exists j :: 0 <= j < |notes| && notes[j].id == id
  }

  /** The invariant the app relies on, since fresh uuids keep ids unique; the reducer does not enforce it. */
  predicate UniqueIds(notes: seq<Note>) {
    forall i, j :: 0 <= i < j < |notes| ==> notes[i].id != notes[j].id
  }

  /** `notes.findIndex(n => n.id === id)`: the first index holding `id`, or -1. */
  function FindIndex(notes: seq<Note>, id: Id): (r: int)
    ensures -1 <= r < |notes|
    ensures r == -1 <==> !HasId(notes, id)
    ensures 0 <= r ==> notes[r].id == id && forall j :: 0 <= j < r ==> notes[j].id != id
  {
    if |notes| == 0 then -1
    else if notes[0].id == id then 0
    else
      var k := FindIndex(notes[1..], id);
      if k == -1 then
        assert forall j :: 1 <= j < |notes| ==> notes[j] == notes[1..][j - 1];
        -1
      else
        assert notes[k + 1] == notes[1..][k];
        k + 1
  }

  /** `notes.filter(n => n.completed)`. */
  function CompletedNotes(notes: seq<Note>): (r: seq<Note>)
    ensures |r| <= |notes|
    ensures forall n :: n in r ==> n in notes && n.completed
    ensures forall j :: 0 <= j < |notes| && notes[j].completed ==> notes[j] in r
    ensures |r| == |notes| <==> forall j :: 0 <= j < |notes| ==> notes[j].completed
    ensures |r| == 0 <==> forall j :: 0 <= j < |notes| ==> !notes[j].completed
  {
    if |notes| == 0 then []
    else
      var rest := CompletedNotes(notes[1..]);
      assert forall j :: 1 <= j < |notes| ==> notes[j] == notes[1..][j - 1];
      if notes[0].completed then [notes[0]] + rest else rest
  }

  /** The heading's "completed / total" pair, recomputed from the list on every render. */
  function Counter(notes: seq<Note>): (r: (nat, nat))
    ensures r.0 <= r.1 == |notes|
    ensures r.0 == r.1 <==> forall j :: 0 <= j < |notes| ==> notes[j].completed
    ensures r.0 == 0 <==> forall j :: 0 <= j < |notes| ==> !notes[j].completed
  {
    (|CompletedNotes(notes)|, |notes|)
  }
}
