# note4me notebooks in Dafny

A model of the note-keeping core of the note4me backend. Each user owns at
most one notebook document. The document holds a counter `lastId` and an
ordered list of notes `{id, title, content?}`. Five authenticated routes work
on it:

- `GET /note/list` returns all notes.
- `GET /note/:cardId` returns the first note with that id.
- `POST /note` finds or creates the notebook, then pushes a note whose id is the counter and increments the counter.
- `DELETE /note/:cardId` filters out the notes with that id.
- `PATCH /note/:cardId` assigns the supplied title and/or content of the matching note.

The project has three modules:

- `NotebookSchema` (`schema.dfy`) covers the stored shapes from `model/Notebook.js`: the `Note` and `Notebook` datatypes, the fresh notebook with its counter default of 0, and the id invariant `WellFormed`. Under that invariant, ids are pairwise distinct and all below `lastId`.
- `NoteService` (`note_service.dfy`) covers each handler as a function from the store before the request to the reply and the store after it. The store maps each owner to a notebook. The handler properties are proved about these functions as lemmas. Among them: the invariant holds over any sequence of requests, `lastId` never goes down, and ids are never reused.
- `NoteRoutes` (`note_routes.dfy`) covers the handlers as they run. The loaded notebook document is a class `NotebookDoc` whose methods push, filter and assign its fields in place. The database is a class `NotebookStore` holding a map from owner to document. Each store method is proved to produce the reply and the new contents that `NoteService` prescribes, and to keep the invariant. The document's `ownerId` is a constant, and the store files each document under its own owner, so two owners never share a document.

Replies are a `Response` datatype in place of HTTP status chains. The status
codes are the ones the code sends:

| route | no notebook | no note | other refusals | success |
|---|---|---|---|---|
| list | 400 | — | — | 200 with the notes |
| get | 400 | 404 | — | 200 with the note |
| create | (created) | — | 400 when title or content is absent | 204 |
| delete | 404 | 404 | — | 204 |
| patch | 404 | 400 | — | 200, or 204 when neither field is supplied |

The model follows the code in three places where other behaviour might be expected:

- Listing for an owner without a notebook is refused with 400. It does not return an empty list.
- `get` answers 400 for a missing notebook, and `patch` answers 400 for a missing note.
- `create` checks only that title and content are present. It does not check that the title is non-empty.

A patch field counts as supplied when it is a non-empty string, since the
handler tests it for truthiness. When neither field is supplied, the patch
handler replies 204 at routes/note.js:138-140 and then runs on without a
`return`. What it does after that changes no field, so the model replies 204
and leaves the store as it was, whether or not the notebook or the note
exists.

## Model

| member | source | states |
|---|---|---|
| `NotebookSchema.NewNotebook` | model/Notebook.js:9-15 | a notebook created for an owner belongs to that owner, has no notes, has its counter at the default 0, and satisfies the id invariant |
| `NoteService.Find` | routes/note.js:41 | the search finds the first note with the id: the returned position holds that id and no earlier note does; it finds none exactly when no note has the id |
| `NoteService.Without` | routes/note.js:79 | the filter keeps exactly the notes whose id differs: each kept note comes from the input and has another id, each such input note is kept, and distinct ids stay distinct |
| `NoteService.WithoutConcat` | routes/note.js:79 | for every input, repeated ids included, filtering a concatenation is the concatenation of the filtered parts, so the kept notes stay in their order and keep their multiplicity |
| `NoteService.WithoutSingle` | routes/note.js:79 | a single note is kept exactly when its id differs from the filtered id |
| `NoteService.WithoutNone` | routes/note.js:79 | filtering out an id that no note carries returns the list unchanged |
| `NoteService.WithoutUnique` | routes/note.js:70-79 | with distinct ids, filtering out the id of the note at position i removes that one note and keeps all the others in their order |
| `NoteService.WithoutBelow` | routes/note.js:79 | filtering keeps every remaining id below the counter |
| `NoteService.Supplied` | routes/note.js:138 | a body field counts as supplied exactly when it is present and is not the empty string, which is the truthiness test at lines 138, 160 and 164 |
| `NoteService.Patched` | routes/note.js:159-166 | a patched note keeps its id; its title is replaced only by a supplied title, its content only by supplied content; with neither supplied it is unchanged |
| `NoteService.PatchKeepsIds` | routes/note.js:159-166 | patching one note of a well-formed notebook keeps the id invariant |
| `NoteService.Insert` | routes/note.js:118 | a push gives the new note the old counter as id, appends it after the unchanged earlier notes, raises the counter by exactly one, and keeps the id invariant |
| `NoteService.List` | routes/note.js:10-27 | the list handler: 400 for an owner without a notebook, otherwise 200 with its notes |
| `NoteService.Get` | routes/note.js:29-56 | the get handler: any note it returns belongs to the owner's notebook and carries the requested id |
| `NoteService.Create` | routes/note.js:90-127 | the create handler: a refusal leaves the store unchanged, a success adds the owner to the store's keys, and no other owner's notebook changes |
| `NoteService.Delete` | routes/note.js:58-88 | the delete handler: a refusal leaves the store unchanged, no notebook is added or removed, and no other owner's notebook changes |
| `NoteService.Patch` | routes/note.js:129-177 | the patch handler: a refusal leaves the store unchanged, no notebook is added or removed, and no other owner's notebook changes |
| `NoteService.ListReply` | routes/note.js:10-21 | list is refused with 400 exactly when the owner has no notebook, and otherwise returns all of its notes in order |
| `NoteService.GetReply` | routes/note.js:29-50 | get is refused with 400 without a notebook and with 404 when no note has the id; it succeeds whenever the notebook holds a note with the id, and a success returns, with 200, the first note carrying the id |
| `NoteService.CreateRefused` | routes/note.js:93-106 | create fails exactly when title or content is absent, with 400, and then creates or changes no notebook |
| `NoteService.CreateAppends` | routes/note.js:112-121 | a successful create replies 204, leaves other owners' notebooks unchanged, and appends one note with the old counter as id after the unchanged earlier notes, raising the counter by exactly one; an owner without a notebook gets a fresh one, so the first note has id 0 |
| `NoteService.CreateIdFresh` | routes/note.js:118 | after a create, the appended note's id is carried by no earlier note of the notebook |
| `NoteService.GetAfterCreate` | routes/note.js:113-118 | after a create, a get of the handed-out id returns the new note |
| `NoteService.DeleteRemoves` | routes/note.js:58-82 | delete fails with 404, changing nothing, exactly when the notebook or the note is missing; on success it replies 204, removes exactly the one note with the id, keeps the others in order, and leaves the counter and the other notebooks unchanged |
| `NoteService.GetAfterDelete` | routes/note.js:41-79 | after a delete of an id, a get of that id is refused |
| `NoteService.PatchNothing` | routes/note.js:137-140 | a patch with neither field supplied replies 204 and leaves the store unchanged |
| `NoteService.PatchTouchesOnly` | routes/note.js:142-170 | a patch with a field supplied is refused with 404 without a notebook and 400 without a matching note, changing nothing; it succeeds whenever the notebook holds a note with the id, and on success it replies 200 and changes only the first matching note, keeping its id and setting just the supplied fields, while the counter, the other notes and the other notebooks stay as they were |
| `NoteService.HandleKeepsInvariant` | routes/note.js:58-170 | each request keeps the id invariant of every notebook, removes no notebook and lowers no counter |
| `NoteService.RunKeepsInvariant` | routes/note.js:10-177 | over any sequence of requests, the id invariant holds throughout, no notebook disappears and no counter ever decreases |
| `NoteService.IdsNeverReused` | routes/note.js:118 | whatever requests come in between, a later create hands out an id larger than every id the notebook held before, so ids are never reused |
| `NoteService.FirstNoteListed` | routes/note.js:112-121 | the first note created for a new user is then listed as the only note, with id 0, title "T" and content "C" (a worked example) |
| `NoteRoutes.NotebookDoc.constructor` | routes/note.js:115 | a newly created notebook document is the owner's empty notebook with counter 0 |
| `NoteRoutes.NotebookDoc.Push` | routes/note.js:118 | pushing with the post-incremented counter turns the document into the `Insert` of its old contents and keeps the invariant |
| `NoteRoutes.NotebookDoc.Remove` | routes/note.js:79 | reassigning the note list to the filtered list leaves the counter unchanged and keeps the invariant |
| `NoteRoutes.NotebookDoc.Update` | routes/note.js:159-166 | assigning the supplied fields of one note changes that note as `Patched` says, leaves the rest of the document unchanged, and keeps the invariant |
| `NoteRoutes.NotebookStore.List` | routes/note.js:10-27 | the list handler's reply is the one `NoteService.List` gives for the store's contents |
| `NoteRoutes.NotebookStore.Get` | routes/note.js:29-56 | the get handler's reply is the one `NoteService.Get` gives for the store's contents |
| `NoteRoutes.NotebookStore.Create` | routes/note.js:90-127 | the create handler replies and changes the store exactly as `NoteService.Create`, touching only the owner's document (or adding a new one), and keeps the invariant |
| `NoteRoutes.NotebookStore.Delete` | routes/note.js:58-88 | the delete handler replies and changes the store exactly as `NoteService.Delete`, touching only the owner's document, and keeps the invariant |
| `NoteRoutes.NotebookStore.Patch` | routes/note.js:129-177 | the patch handler replies and changes the store exactly as `NoteService.Patch`, touching only the owner's document, and keeps the invariant |

## Left out

- Authentication is not modelled: signup, login and the current-user route (routes/user.js), input validation, password hashing and token signing. The `auth` middleware is not part of this model. The owner id it attaches to a request is taken as a trusted parameter of every operation.
- Server bootstrap, route mounting and the database connection (app.js, config/db.js) are not modelled.
- Persistence is a map held in memory. Failures of the database or of `save`, which the code turns into 500 replies, are not modelled.
- Mongoose's own `required` check at save time is not modelled. With that check, an empty title passed to `create` would fail at save with a 500, after a missing notebook had already been created. The model checks only the presence test the route itself makes.
- Concurrency is not modelled. Requests are handled one at a time. The code's exists-then-create sequence and its read-modify-write of `lastId` race between simultaneous requests, and the model does not capture that race.
- The route parameter `cardId` is taken as an already decoded number. JavaScript's loose comparison of a numeric id with a route string, and ids that are not numbers, are not modelled.
- `lastId` and note ids are unbounded naturals. JavaScript numbers lose precision above 2^53.
- Reply bodies and messages are reduced to a status and a failure kind. The list route's projection onto the `notes` field is not modelled.
- The second reply of the patch handler is not modelled. After its early 204 (routes/note.js:139), every path sends again: 404 at line 147, 400 at line 155, or 200 at line 170. Each of those sends throws because the headers have already been sent. The 500 send in the catch block (line 174) then throws as well, out of the async handler. The model keeps only the 204 the client receives and the unchanged store.
- The presence test of `create` is modelled on the request body alone. The code's `check("title").exists()` and `check("content").exists()` (routes/note.js:94-95) also look in the query string, route parameters, cookies and headers, but the handler reads `title` and `content` from the body only (line 109). The model refuses such a request with 400, and the code does not:
  - A title sent only outside the body passes the test. The note is pushed without a title, which the schema requires (model/Notebook.js:5), so the save fails with a 500. By then `Notebook.create` (line 115) may already have stored an empty notebook for the owner.
  - Content sent only outside the body also passes the test. Content is optional in the schema (model/Notebook.js:6), so the note is stored without content, the counter goes up by one, and the reply is 204.
- Request fields given as JSON `null`, or as values other than strings, are not modelled. A field is either absent or a string.
