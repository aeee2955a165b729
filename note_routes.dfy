/** The note handlers of routes/note.js as they run: each loads the owner's
    notebook document, changes its fields in place and saves it. The
    database is a map from owner to the loaded document; every handler is
    proved to reply and leave the store exactly as NoteService says. */
module NoteRoutes {
  import opened NotebookSchema
  import opened NoteService

  /** A notebook document as the handlers load and mutate it. The owner is
      fixed when the document is created. */
  class NotebookDoc {
    const ownerId: OwnerId
    var lastId: nat
    var notes: seq<Note>

    /** The document's current contents. */
    function Value(): Notebook
      reads this
    {
      Notebook(ownerId, lastId, notes)
    }

    /** The id invariant holds of the document. */
    ghost predicate Valid()
      reads this
    {
      WellFormed(Value())
    }

    /** Creating a notebook for an owner: no notes, counter at 0. */
    constructor (owner: OwnerId)
      ensures Valid() && Value() == NewNotebook(owner)
    {
      ownerId := owner;
      lastId := 0;
      notes := [];
    }

    /** Push a note whose id is the counter, post-incrementing the counter. */
    method Push(title: string, content: string)
      requires Valid()
      modifies this
      ensures Valid()
      ensures Value() == Insert(old(Value()), title, content)
    {
      var id := lastId;
      lastId := lastId + 1;
      notes := notes + [Note(id, title, Some(content))];
    }

    /** Replace the note list by the notes whose id differs from id. */
    method Remove(id: nat)
      requires Valid()
      modifies this
      ensures Valid()
      ensures Value() == old(Value()).(notes := Without(old(notes), id))
    {
      WithoutBelow(notes, id, lastId);
      notes := Without(notes, id);
    }

    /** Assign the supplied fields of the note at position i, the title
      first and then the content. */
    method Update(i: nat, title: Option<string>, content: Option<string>)
      requires Valid() && i < |notes|
      modifies this
      ensures Valid()
      ensures Value() == old(Value()).(notes := old(notes)[i := Patched(old(notes)[i], title, content)])
    {
      PatchKeepsIds(Value(), i, title, content);
      var note := notes[i];
      if Supplied(title) {
        note := note.(title := title.value);
      }
      if Supplied(content) {
        note := note.(content := content);
      }
      notes := notes[i := note];
    }
  }

  /** The notebook collection: at most one loaded document per owner. */
  class NotebookStore {
    var books: map<OwnerId, NotebookDoc>

    /** Every document is filed under its own owner (so two owners never
      share a document) and keeps the id invariant. */
    ghost predicate Valid()
      reads this, books.Values
    {
      forall o :: o in books ==> books[o].ownerId == o && books[o].Valid()
    }

    /** The contents of the collection. */
    ghost function Contents(): Store
      reads this, books.Values
    {
      map o | o in books :: books[o].Value()
    }

    /** The only document a request for owner may change. */
    function Footprint(owner: OwnerId): set<object>
      reads this
    {
      if owner in books then {books[owner]} else {}
    }

    constructor ()
      ensures Valid() && Contents() == map[]
    {
      books := map[];
    }

    /** GET /list. */
    method List(owner: OwnerId) returns (r: Response<seq<Note>>)
      requires Valid()
      ensures r == NoteService.List(Contents(), owner)
    {
      if owner !in books {
        return Fail(NotebookMissing, 400);
      }
      r := Ok(200, books[owner].notes);
    }

    /** GET /:cardId. */
    method Get(owner: OwnerId, id: nat) returns (r: Response<Note>)
      requires Valid()
      ensures r == NoteService.Get(Contents(), owner, id)
    {
      if owner !in books {
        return Fail(NotebookMissing, 400);
      }
      var doc := books[owner];
      match Find(doc.notes, id)
      case None =>
        r := Fail(NoteMissing, 404);
      case Some(i) =>
        r := Ok(200, doc.notes[i]);
    }

    /** POST /. */
    method Create(owner: OwnerId, title: Option<string>, content: Option<string>)
      returns (r: Response<()>)
      requires Valid()
      modifies this, Footprint(owner)
      ensures Valid()
      ensures Step(r, Contents()) == NoteService.Create(old(Contents()), owner, title, content)
    {
      if title.None? || content.None? {
        return Fail(Invalid, 400);
      }
      ghost var before := Contents();
      var doc: NotebookDoc;
      if owner in books {
        doc := books[owner];
      } else {
        doc := new NotebookDoc(owner);
        books := books[owner := doc];
      }
      doc.Push(title.value, content.value);
      r := Ok(204, ());
      assert Contents() == before[owner := doc.Value()];
    }

    /** DELETE /:cardId. */
    method Delete(owner: OwnerId, id: nat) returns (r: Response<()>)
      requires Valid()
      modifies Footprint(owner)
      ensures Valid()
      ensures Step(r, Contents()) == NoteService.Delete(old(Contents()), owner, id)
    {
      if owner !in books {
        return Fail(NotebookMissing, 404);
      }
      var doc := books[owner];
      if Find(doc.notes, id).None? {
        return Fail(NoteMissing, 404);
      }
      ghost var before := Contents();
      doc.Remove(id);
      r := Ok(204, ());
      forall o | o in books && o != owner
        ensures books[o].Value() == before[o] && books[o].Valid()
      {
        assert books[o].ownerId != doc.ownerId;
      }
      assert Contents() == before[owner := doc.Value()];
    }

    /** PATCH /:cardId. */
    method Patch(owner: OwnerId, id: nat, title: Option<string>, content: Option<string>)
      returns (r: Response<()>)
      requires Valid()
      modifies Footprint(owner)
      ensures Valid()
      ensures Step(r, Contents()) == NoteService.Patch(old(Contents()), owner, id, title, content)
    {
      if !Supplied(title) && !Supplied(content) {
        return Ok(204, ());
      }
      if owner !in books {
        return Fail(NotebookMissing, 404);
      }
      var doc := books[owner];
      match Find(doc.notes, id)
      case None =>
        r := Fail(NoteMissing, 400);
      case Some(i) =>
        ghost var before := Contents();
        doc.Update(i, title, content);
        r := Ok(200, ());
        assert Contents() == before[owner := doc.Value()];
    }
  }
}
