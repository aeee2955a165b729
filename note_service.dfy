/** What the five note handlers of routes/note.js do to the notebook store,
    as functions from the store before a request to the reply and the store
    after it, with the properties those handlers promise proved about them.
    The store is the notebook collection: one notebook per owner. */
module NoteService {
  import opened NotebookSchema

  /** Why a request was refused. */
  datatype Failure =
    | NotebookMissing  // the owner has no notebook yet
    | NoteMissing      // the notebook holds no note with the requested id
    | Invalid          // a required body field is absent

  /** The reply a handler sends: an HTTP status with a body, or a refusal. */
  datatype Response<T> = Ok(status: nat, body: T) | Fail(failure: Failure, status: nat)

  /** The notebook collection, keyed by owner. */
  type Store = map<OwnerId, Notebook>

  /** The reply to a request that may change the store, and the store after it. */
  datatype Step = Step(response: Response<()>, after: Store)

  /** Every notebook is filed under its own owner and keeps its id invariant. */
  predicate StoreValid(s: Store)
  {
    forall o :: o in s ==> s[o].ownerId == o && WellFormed(s[o])
  }

  /** A request body field counts as supplied when it is a non-empty string
      (the handler tests it for truthiness). */
  predicate Supplied(field: Option<string>)
  {
    field.Some? && field.value != ""
  }

  // ---------------------------------------------------------------------
  // Operations on the note list of one notebook
  // ---------------------------------------------------------------------

  /** The position of the first note with the given id, as the array search
      in the handlers finds it. */
  function Find(notes: seq<Note>, id: nat): (r: Option<nat>)
    ensures r.Some? ==> r.value < |notes| && notes[r.value].id == id
    ensures r.Some? ==> forall j :: 0 <= j < r.value ==> notes[j].id != id
    ensures r.None? <==> forall j :: 0 <= j < |notes| ==> notes[j].id != id
  {
    if notes == [] then None
    else if notes[0].id == id then Some(0)
    else match Find(notes[1..], id)
      case None => None
      case Some(i) => Some(i + 1)
  }

  /** The notes whose id differs from the given one, in their original order
      (the filter the delete handler applies). */
  function Without(notes: seq<Note>, id: nat): (r: seq<Note>)
    ensures |r| <= |notes|
    ensures forall k :: 0 <= k < |r| ==> r[k] in notes && r[k].id != id
    ensures forall n :: n in notes && n.id != id ==> n in r
    ensures IdsDistinct(notes) ==> IdsDistinct(r)
  {
    if notes == [] then []
    else if notes[0].id == id then Without(notes[1..], id)
    else
      var rest := Without(notes[1..], id);
      assert forall k :: 0 <= k < |rest| ==> rest[k] in notes[1..];
      [notes[0]] + rest
  }

  /** With distinct ids, removing the notes with the id of the note at
      position i removes exactly that note and keeps the others in order. */
  lemma {:induction false} WithoutUnique(notes: seq<Note>, i: nat)
    requires IdsDistinct(notes) && i < |notes|
    ensures Without(notes, notes[i].id) == notes[..i] + notes[i + 1..]
  {
    var tail := notes[1..];
    TailDistinct(notes);
    if i == 0 {
      WithoutNone(tail, notes[0].id);
    } else {
      WithoutUnique(tail, i - 1);
      SpliceCons(notes, i);
    }
  }

  /** Dropping the head keeps ids distinct. */
  lemma TailDistinct(notes: seq<Note>)
    requires IdsDistinct(notes) && notes != []
    ensures IdsDistinct(notes[1..])
    ensures forall j :: 0 <= j < |notes[1..]| ==> notes[1..][j].id != notes[0].id
  {
  }

  /** Cutting position i out of a sequence is keeping its head and cutting
      position i - 1 out of its tail. */
  lemma SpliceCons(notes: seq<Note>, i: nat)
    requires 0 < i < |notes|
    ensures notes[..i] + notes[i + 1..] == [notes[0]] + (notes[1..][..i - 1] + notes[1..][i..])
  {
  }

  /** Removing an id that no note carries changes nothing. */
  lemma {:induction false} WithoutNone(notes: seq<Note>, id: nat)
    requires forall j :: 0 <= j < |notes| ==> notes[j].id != id
    ensures Without(notes, id) == notes
  {
    if notes != [] {
      WithoutNone(notes[1..], id);
      assert [notes[0]] + notes[1..] == notes;
    }
  }

  /** The filter works note by note: filtering a concatenation filters each
      part and keeps the parts in order. With WithoutSingle this fixes the
      result for every input, its order and its repeated notes included. */
  lemma {:induction false} WithoutConcat(a: seq<Note>, b: seq<Note>, id: nat)
    ensures Without(a + b, id) == Without(a, id) + Without(b, id)
  {
    if a == [] {
      assert a + b == b;
    } else {
      var ab := a + b;
      assert ab != [] && ab[0] == a[0] && ab[1..] == a[1..] + b;
      WithoutConcat(a[1..], b, id);
      var rest := Without(a[1..], id);
      if a[0].id == id {
        calc {
          Without(ab, id);
          Without(a[1..] + b, id);
          rest + Without(b, id);
        }
      } else {
        calc {
          Without(ab, id);
          [a[0]] + Without(a[1..] + b, id);
          [a[0]] + (rest + Without(b, id));
          ([a[0]] + rest) + Without(b, id);
        }
      }
    }
  }

  /** A single note is kept exactly when its id differs. */
  lemma WithoutSingle(n: Note, id: nat)
    ensures Without([n], id) == if n.id == id then [] else [n]
  {
  }

  /** Removing notes keeps every remaining id below the counter. */
  lemma WithoutBelow(notes: seq<Note>, id: nat, bound: nat)
    requires IdsBelow(notes, bound)
    ensures IdsBelow(Without(notes, id), bound)
  {
  }

  /** The note after a patch: the title is replaced only when a title is
      supplied, then the content only when content is supplied. */
  function Patched(n: Note, title: Option<string>, content: Option<string>): (r: Note)
    ensures r.id == n.id
    ensures r.title == (if Supplied(title) then title.value else n.title)
    ensures r.content == (if Supplied(content) then content else n.content)
    ensures !Supplied(title) && !Supplied(content) ==> r == n
  {
    var titled := if Supplied(title) then n.(title := title.value) else n;
    if Supplied(content) then titled.(content := content) else titled
  }

  /** A patch of one note changes no id, so the id invariant is kept. */
  lemma PatchKeepsIds(b: Notebook, i: nat, title: Option<string>, content: Option<string>)
    requires WellFormed(b) && i < |b.notes|
    ensures WellFormed(b.(notes := b.notes[i := Patched(b.notes[i], title, content)]))
  {
  }

  /** Pushing a note onto a notebook: the note takes the counter's value as
      its id and the counter moves on by one. */
  function Insert(b: Notebook, title: string, content: string): (r: Notebook)
    ensures r.ownerId == b.ownerId && r.lastId == b.lastId + 1
    ensures |r.notes| == |b.notes| + 1 && r.notes[..|b.notes|] == b.notes
    ensures r.notes[|b.notes|] == Note(b.lastId, title, Some(content))
    ensures WellFormed(b) ==> WellFormed(r)
  {
    b.(lastId := b.lastId + 1, notes := b.notes + [Note(b.lastId, title, Some(content))])
  }

  // ---------------------------------------------------------------------
  // The five handlers
  // ---------------------------------------------------------------------

  /** GET /list: all notes of the owner's notebook, in order. */
  function List(s: Store, owner: OwnerId): (r: Response<seq<Note>>)
  {
    if owner !in s then Fail(NotebookMissing, 400)
    else Ok(200, s[owner].notes)
  }

  /** GET /:cardId: the first note of the owner's notebook with that id. */
  function Get(s: Store, owner: OwnerId, id: nat): (r: Response<Note>)
    ensures r.Ok? ==> owner in s && r.body in s[owner].notes && r.body.id == id
  {
    if owner !in s then Fail(NotebookMissing, 400)
    else match Find(s[owner].notes, id)
      case None => Fail(NoteMissing, 404)
      case Some(i) => Ok(200, s[owner].notes[i])
  }

  /** POST /: check that title and content are present, find or create the
      owner's notebook, and push the note under the next id. */
  function Create(s: Store, owner: OwnerId, title: Option<string>, content: Option<string>): (r: Step)
    ensures r.response.Fail? ==> r.after == s
    ensures r.response.Ok? ==> r.after.Keys == s.Keys + {owner}
    ensures forall o :: o in s && o != owner ==> o in r.after && r.after[o] == s[o]
  {
    if title.None? || content.None? then Step(Fail(Invalid, 400), s)
    else
      var b := if owner in s then s[owner] else NewNotebook(owner);
      Step(Ok(204, ()), s[owner := Insert(b, title.value, content.value)])
  }

  /** DELETE /:cardId: drop every note with that id from the owner's notebook. */
  function Delete(s: Store, owner: OwnerId, id: nat): (r: Step)
    ensures r.response.Fail? ==> r.after == s
    ensures r.after.Keys == s.Keys
    ensures forall o :: o in s && o != owner ==> r.after[o] == s[o]
  {
    if owner !in s then Step(Fail(NotebookMissing, 404), s)
    else match Find(s[owner].notes, id)
      case None => Step(Fail(NoteMissing, 404), s)
      case Some(_) => Step(Ok(204, ()), s[owner := s[owner].(notes := Without(s[owner].notes, id))])
  }

  /** PATCH /:cardId: with neither field supplied, reply 204 and change
      nothing; otherwise update the supplied fields of the first note with
      that id. */
  function Patch(s: Store, owner: OwnerId, id: nat, title: Option<string>, content: Option<string>): (r: Step)
    ensures r.response.Fail? ==> r.after == s
    ensures r.after.Keys == s.Keys
    ensures forall o :: o in s && o != owner ==> r.after[o] == s[o]
  {
    if !Supplied(title) && !Supplied(content) then Step(Ok(204, ()), s)
    else if owner !in s then Step(Fail(NotebookMissing, 404), s)
    else match Find(s[owner].notes, id)
      case None => Step(Fail(NoteMissing, 400), s)
      case Some(i) =>
        var b := s[owner];
        Step(Ok(200, ()), s[owner := b.(notes := b.notes[i := Patched(b.notes[i], title, content)])])
  }

  // ---------------------------------------------------------------------
  // Properties of the handlers
  // ---------------------------------------------------------------------

  /** List fails with 400 exactly when the owner has no notebook (an owner
      without one gets no empty list), and otherwise returns its notes. */
  lemma ListReply(s: Store, owner: OwnerId)
    ensures List(s, owner).Fail? <==> owner !in s
    ensures List(s, owner).Fail? ==> List(s, owner) == Fail(NotebookMissing, 400)
    ensures owner in s ==> List(s, owner) == Ok(200, s[owner].notes)
  {
  }

  /** Get returns the first note with the requested id; a missing notebook is
      a 400 and a missing note a 404. */
  lemma GetReply(s: Store, owner: OwnerId, id: nat)
    ensures owner !in s ==> Get(s, owner, id) == Fail(NotebookMissing, 400)
    ensures owner in s && (forall n :: n in s[owner].notes ==> n.id != id) ==>
              Get(s, owner, id) == Fail(NoteMissing, 404)
    ensures owner in s && (exists n :: n in s[owner].notes && n.id == id) ==> Get(s, owner, id).Ok?
    ensures Get(s, owner, id).Ok? ==>
              owner in s && Get(s, owner, id).status == 200 &&
              exists i :: 0 <= i < |s[owner].notes| && s[owner].notes[i] == Get(s, owner, id).body &&
                          s[owner].notes[i].id == id &&
                          forall j :: 0 <= j < i ==> s[owner].notes[j].id != id
  {
  }

  /** Create with title or content absent is refused with 400 and creates or
      changes no notebook. */
  lemma CreateRefused(s: Store, owner: OwnerId, title: Option<string>, content: Option<string>)
    ensures Create(s, owner, title, content).response.Fail? <==> title.None? || content.None?
    ensures title.None? || content.None? ==>
              Create(s, owner, title, content) == Step(Fail(Invalid, 400), s)
  {
  }

  /** A successful create appends one note at the end of the owner's
      notebook, with the old counter as its id; the earlier notes stay as
      they were and in order, the counter goes up by exactly one, and no
      other notebook changes. An owner without a notebook gets a fresh one,
      so its first note has id 0. */
  lemma CreateAppends(s: Store, owner: OwnerId, title: string, content: string)
    ensures var t := Create(s, owner, Some(title), Some(content));
            var before := if owner in s then s[owner] else NewNotebook(owner);
            t.response == Ok(204, ()) && t.after.Keys == s.Keys + {owner} &&
            (forall o :: o in s && o != owner ==> t.after[o] == s[o]) &&
            t.after[owner].ownerId == before.ownerId &&
            t.after[owner].lastId == before.lastId + 1 &&
            t.after[owner].notes == before.notes + [Note(before.lastId, title, Some(content))]
    ensures owner !in s ==>
              Create(s, owner, Some(title), Some(content)).after[owner].notes == [Note(0, title, Some(content))]
  {
  }

  /** The id a create hands out is new: the appended note's id is carried
      by no earlier note of the notebook, so ids stay distinct. */
  lemma CreateIdFresh(s: Store, owner: OwnerId, title: string, content: string)
    requires StoreValid(s)
    ensures var notes := Create(s, owner, Some(title), Some(content)).after[owner].notes;
            |notes| > 0 &&
            forall k :: 0 <= k < |notes| - 1 ==> notes[k].id != notes[|notes| - 1].id
  {
    var before := if owner in s then s[owner] else NewNotebook(owner);
    var notes := Create(s, owner, Some(title), Some(content)).after[owner].notes;
    forall k | 0 <= k < |notes| - 1
      ensures notes[k].id != notes[|notes| - 1].id
    {
      assert notes[k] == before.notes[k];
    }
  }

  /** Delete of an id with no notebook or no note behind it is a 404 and
      changes nothing; otherwise it removes the one note with that id,
      keeps the others in order, and leaves the counter where it was. */
  lemma DeleteRemoves(s: Store, owner: OwnerId, id: nat)
    requires StoreValid(s)
    ensures var t := Delete(s, owner, id);
            t.response.Fail? <==> owner !in s || forall n :: n in s[owner].notes ==> n.id != id
    ensures var t := Delete(s, owner, id);
            t.response.Fail? ==> t.response.status == 404 && t.after == s
    ensures var t := Delete(s, owner, id);
            t.response.Ok? ==>
              t.response.status == 204 && t.after.Keys == s.Keys &&
              (forall o :: o in s && o != owner ==> t.after[o] == s[o]) &&
              t.after[owner].lastId == s[owner].lastId &&
              exists i :: 0 <= i < |s[owner].notes| && s[owner].notes[i].id == id &&
                          t.after[owner].notes == s[owner].notes[..i] + s[owner].notes[i + 1..]
  {
    if owner in s {
      var notes := s[owner].notes;
      match Find(notes, id)
      case None =>
        assert forall n :: n in notes ==> n.id != id;
      case Some(i) =>
        assert notes[i] in notes;
        WithoutUnique(notes, i);
    }
  }

  /** After a delete, a get of the same id finds no note. */
  lemma GetAfterDelete(s: Store, owner: OwnerId, id: nat)
    ensures Get(Delete(s, owner, id).after, owner, id).Fail?
  {
  }

  /** After a create, a get of the handed-out id returns the new note. */
  lemma GetAfterCreate(s: Store, owner: OwnerId, title: string, content: string)
    requires StoreValid(s)
    ensures var id := if owner in s then s[owner].lastId else 0;
            Get(Create(s, owner, Some(title), Some(content)).after, owner, id) ==
              Ok(200, Note(id, title, Some(content)))
  {
  }

  /** A patch with neither field supplied replies 204 and leaves the store
      as it was. */
  lemma PatchNothing(s: Store, owner: OwnerId, id: nat, title: Option<string>, content: Option<string>)
    requires !Supplied(title) && !Supplied(content)
    ensures Patch(s, owner, id, title, content) == Step(Ok(204, ()), s)
  {
  }

  /** A patch touches only the first note with the id: it sets the title
      when a title is supplied and the content when content is supplied;
      ids, every other note, the counter and every other notebook stay as
      they were. A missing notebook is a 404 and a missing note a 400, both
      without change. */
  lemma PatchTouchesOnly(s: Store, owner: OwnerId, id: nat, title: Option<string>, content: Option<string>)
    requires Supplied(title) || Supplied(content)
    ensures var t := Patch(s, owner, id, title, content);
            owner !in s ==> t == Step(Fail(NotebookMissing, 404), s)
    ensures var t := Patch(s, owner, id, title, content);
            owner in s && (forall n :: n in s[owner].notes ==> n.id != id) ==>
              t == Step(Fail(NoteMissing, 400), s)
    ensures owner in s && (exists n :: n in s[owner].notes && n.id == id) ==>
              Patch(s, owner, id, title, content).response.Ok?
    ensures var t := Patch(s, owner, id, title, content);
            t.response.Ok? ==>
              t.response.status == 200 && owner in s && t.after.Keys == s.Keys &&
              (forall o :: o in s && o != owner ==> t.after[o] == s[o]) &&
              t.after[owner].lastId == s[owner].lastId &&
              |t.after[owner].notes| == |s[owner].notes| &&
              exists i :: 0 <= i < |s[owner].notes| && s[owner].notes[i].id == id &&
                (forall j :: 0 <= j < i ==> s[owner].notes[j].id != id) &&
                (forall k :: 0 <= k < |s[owner].notes| && k != i ==> t.after[owner].notes[k] == s[owner].notes[k]) &&
                t.after[owner].notes[i].id == id &&
                t.after[owner].notes[i].title ==
                  (if Supplied(title) then title.value else s[owner].notes[i].title) &&
                t.after[owner].notes[i].content ==
                  (if Supplied(content) then content else s[owner].notes[i].content)
  {
  }

  // ---------------------------------------------------------------------
  // The invariant over any sequence of requests
  // ---------------------------------------------------------------------

  /** A request to the note routes, already authenticated as its owner. */
  datatype Request =
    | ListRequest(owner: OwnerId)
    | GetRequest(owner: OwnerId, id: nat)
    | CreateRequest(owner: OwnerId, title: Option<string>, content: Option<string>)
    | DeleteRequest(owner: OwnerId, id: nat)
    | PatchRequest(owner: OwnerId, id: nat, title: Option<string>, content: Option<string>)

  /** The store after handling one request. */
  function Handle(s: Store, req: Request): (t: Store)
  {
    match req
    case ListRequest(_) => s
    case GetRequest(_, _) => s
    case CreateRequest(o, t, c) => Create(s, o, t, c).after
    case DeleteRequest(o, id) => Delete(s, o, id).after
    case PatchRequest(o, id, t, c) => Patch(s, o, id, t, c).after
  }

  /** The store after handling the requests one after another. */
  function Run(s: Store, reqs: seq<Request>): (t: Store)
    decreases |reqs|
  {
    if reqs == [] then s else Run(Handle(s, reqs[0]), reqs[1..])
  }

  /** No notebook disappears and no counter goes down from s to t. */
  predicate Grows(s: Store, t: Store)
  {
    forall o :: o in s ==> o in t && s[o].lastId <= t[o].lastId
  }

  /** Each request keeps the id invariant of every notebook, removes no
      notebook and decreases no counter. */
  lemma HandleKeepsInvariant(s: Store, req: Request)
    requires StoreValid(s)
    ensures StoreValid(Handle(s, req)) && Grows(s, Handle(s, req))
  {
  }

  /** Over any sequence of requests the id invariant holds throughout, no
      notebook disappears and no counter goes down. */
  lemma {:induction false} RunKeepsInvariant(s: Store, reqs: seq<Request>)
    requires StoreValid(s)
    ensures StoreValid(Run(s, reqs)) && Grows(s, Run(s, reqs))
    decreases |reqs|
  {
    if reqs != [] {
      var s1 := Handle(s, reqs[0]);
      HandleKeepsInvariant(s, reqs[0]);
      RunKeepsInvariant(s1, reqs[1..]);
    }
  }

  /** Ids are never reused: whatever requests come in between, a later
      create for an owner hands out an id that no note the owner's notebook
      held before carried. */
  lemma IdsNeverReused(s: Store, reqs: seq<Request>, owner: OwnerId, title: string, content: string)
    requires StoreValid(s) && owner in s
    ensures var t := Run(s, reqs);
            var u := Create(t, owner, Some(title), Some(content)).after;
            owner in u && |u[owner].notes| > 0 &&
            forall n :: n in s[owner].notes ==> n.id < u[owner].notes[|u[owner].notes| - 1].id
  {
    var t := Run(s, reqs);
    RunKeepsInvariant(s, reqs);
    CreateAppends(t, owner, title, content);
    forall n | n in s[owner].notes
      ensures n.id < s[owner].lastId
    {
      var k :| 0 <= k < |s[owner].notes| && s[owner].notes[k] == n;
    }
  }

  /** A worked example: the first note created for a new user is listed as
      the only note, with id 0 and the title given. */
  lemma FirstNoteListed(owner: OwnerId)
    ensures var s := Create(map[], owner, Some("T"), Some("C")).after;
            List(s, owner) == Ok(200, [Note(0, "T", Some("C"))])
  {
  }
}
