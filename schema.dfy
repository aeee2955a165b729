/** The stored shape of a user's notebook: one document per owner holding an
    id counter and an ordered list of notes (model/Notebook.js). */
module NotebookSchema {

  /** A field that a request body or a stored record may leave out. */
  datatype Option<+T> = None | Some(value: T)

  /** The identity of the user who owns a notebook (a database object id,
      treated as an opaque key). */
  type OwnerId = string

  /** One note: a numeric id and a title, both required, and optional content. */
  datatype Note = Note(id: nat, title: string, content: Option<string>)

  /** One notebook document: its owner, the next id to hand out, and the notes
      in insertion order. */
  datatype Notebook = Notebook(ownerId: OwnerId, lastId: nat, notes: seq<Note>)

  /** No two notes of a notebook share an id. */
  predicate IdsDistinct(notes: seq<Note>)
  {
    forall j, k :: 0 <= j < k < |notes| ==> notes[j].id != notes[k].id
  }

  /** Every id in use was handed out by the counter, so it lies below it. */
  predicate IdsBelow(notes: seq<Note>, bound: nat)
  {
    forall k :: 0 <= k < |notes| ==> notes[k].id < bound
  }

  /** The invariant every operation on a notebook keeps. */
  predicate WellFormed(b: Notebook)
  {
    IdsDistinct(b.notes) && IdsBelow(b.notes, b.lastId)
  }

  /** A notebook as the database creates it for an owner: no notes, and the
      counter at its schema default of 0. */
  function NewNotebook(owner: OwnerId): (b: Notebook)
    ensures b.ownerId == owner && WellFormed(b)
    ensures b.notes == [] && b.lastId == 0
  {
    Notebook(owner, 0, [])
  }
}
