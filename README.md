# Write-it backend: note ownership and credentials, in Dafny

This project models the core of the Write-it notes backend, `server.js`. The backend keeps
two MongoDB collections. `users` holds documents `{firstName, lastName, email, password,
notes}`, where `notes` is an array of note ids. `notes` holds documents `{title, content,
user}`, where `user` is the owner's id. Five request handlers read and write them:

- register hashes the password with bcrypt and saves a user with an empty `notes` array;
- login finds a user by email and compares the password with the stored hash;
- addNote saves the note first, then pushes its id onto the user's array;
- deleteNote deletes the note, then pulls its id from the user's array;
- getUserNotes populates the user's array against the notes collection.

Files and modules:

- `sequences.dfy` (`Sequences`): order-preserving `Filter` and Mongoose's `Pull`, with
  their lemmas (membership, order, copy counts, idempotence, no duplicates).
- `credentials.dfy` (`Credentials`): bcrypt as an abstract `Hasher` function value.
  `Hash` stores the cost factor 10, the salt and the digest. `Verify` recomputes the digest
  from the stored cost and salt. `Verify(p, Hash(p))` holds for every hasher.
- `store.dfy` (`Store`): the two record shapes, the two tables, and the two lookups:
  `FindByEmail` (`findOne`) and `Populate` (`populate`).
- `handlers.dfy` (`Handlers`): each handler as a total function from the tables before
  the request to the tables after it and the handler's answer (`Step`). It also defines
  the ownership invariant `Consistent`, in three parts: every id in a user's array names a
  stored note owned by that user (`ListsOwned`); every stored note appears in its owner's
  array (`NotesListed`); no array holds an id twice (`ListsDistinct`). The lemmas show which handlers keep `Consistent` and which break it, and how.
- `server.dfy` (`Server`): class `Database` holds the
  two tables as `map` fields. `Register`, `AddNote` and `DeleteNote` are methods that make
  the handler's writes in the handler's order. Each method's contract ties the new tables
  to the matching `Handlers` function applied to the old ones. It also says when the
  method keeps the invariant.

Modelling choices:

- bcrypt's random salt and the driver's fresh ObjectIds are parameters. A fresh id is a
  precondition: `id !in users`, `id !in notes`.
- `findOne({email})` returns some user with that email. Emails are not unique, so the
  model leaves open which user is found (a ghost choice). That makes `Login` ghost. The
  login lemmas assume no other account uses the email.
- HTTP status codes become the error kinds `UserNotFound` (404 from login; the failed
  lookup in addNote, deleteNote and getUserNotes) and `IncorrectPassword` (401).
- On the failure paths the model follows the handlers' code:
  - deleteNote has no `try`. When the user is missing, the handler throws after the
    note is already deleted, and no response is sent; under Express 4 the rejected promise is
    unhandled, which on Node 15 or later stops the whole process. The model returns
    `Err(UserNotFound)`, with the note deleted; the stored tables are the same either way.
  - getUserNotes answers a missing user with a 500 (a `TypeError` caught around
    `user.notes`). The model returns `Err(UserNotFound)`.
  - addNote answers a missing user with a 400, after the note has been saved.

## Model

| member | source | states |
|---|---|---|
| Sequences.Pull | server.js:140 | `pull` removes every occurrence of the id, keeps every other element present and in its relative order, never lengthens the array, and changes nothing when the id is absent |
| Sequences.PullCounts | server.js:140 | as a multiset the pulled array is the input with that id's count set to zero: every copy of every other element survives |
| Sequences.FilterCount | server.js:140 | filtering keeps every copy of an element that passes the test and none of one that fails it |
| Sequences.PullIdempotent | server.js:140 | pulling the same id twice gives the same array as pulling it once |
| Sequences.PullDistinct | server.js:140 | pulling from an array without duplicates leaves no duplicates |
| Sequences.Filter | server.js:148 | the reference definition of "drop what fails a test, keep order": never longer than the input, and it holds exactly the input's elements that pass the test |
| Sequences.FilterIsSubsequence | server.js:148 | what filtering keeps appears in the input's order |
| Sequences.FilterKeepsAll | server.js:148 | when every id passes the test, the array comes back unchanged |
| Sequences.FilterShorter | server.js:148 | dropping an id that occurs makes the result strictly shorter |
| Sequences.FilterConcat | server.js:148 | filtering a concatenation gives the concatenation of the filtered parts |
| Sequences.FilterFilter | server.js:140-148 | two filterings in a row give the same result whenever the same elements pass both tests, so a pull and a populate commute |
| Credentials.Hash | server.js:58 | the stored credential carries cost factor 10 and the drawn salt, and the password it was made from verifies against it |
| Credentials.VerifyRehash | server.js:91 | `bcrypt.compare` (`Credentials.Verify`) accepts a plaintext against a cost-10 hash exactly when hashing it again with the stored salt gives back the stored hash |
| Credentials.VerifyOtherPassword | server.js:91 | another password verifies against a stored hash exactly when the hasher gives it the same digest under that salt |
| Store.FindByEmail | server.js:89 | finds nothing exactly when no user has the email; otherwise returns a stored user with that email |
| Store.Populate | server.js:148 | the resolved notes' ids are the array's ids filtered to those still stored, in array order; each resolved note is the stored note for its id |
| Store.PopulateConcat | server.js:148 | populating a concatenation gives the concatenation of the populated parts |
| Store.PopulateFrame | server.js:148 | storing a note under an id the array does not hold does not change the populated array |
| Handlers.Login | server.js:89-106 | not-found exactly when no user has the email; a success is the profile of a user with that email whose hash accepts the password; if every such user rejects it, the answer is an error, and if every one accepts it, a success; incorrect-password only when some such user rejects it |
| Handlers.Register | server.js:56-84 | register never fails: it adds exactly one user under the fresh id, leaves the notes alone, and answers with that new user's profile (id and names, no password) |
| Handlers.AddNote | server.js:113-132 | the note is stored under the fresh id on both paths; the answer is user-not-found exactly when the user is missing, and then users are unchanged; otherwise the answer is the stored note and no user is added or removed |
| Handlers.DeleteNote | server.js:135-143 | the note is removed from the notes table on both paths; the answer is user-not-found exactly when the user is missing, and then users are unchanged; otherwise no user is added or removed |
| Handlers.ListNotes | server.js:147-152 | fails exactly when the user is missing; otherwise the user's ids in order with missing notes dropped, each resolved to its stored note, and never longer than the array |
| Handlers.RegisterCreatesUser | server.js:58-73 | register adds only the new user, stored whole: its names, email, an empty array and the stored hash of the password (not the password itself), leaves notes alone, and answers with id and names only |
| Handlers.LoginAfterRegister | server.js:89-100 | after registering with an email no one else uses, logging in with the same password yields that user's profile |
| Handlers.LoginWrongPassword | server.js:91-102 | after registering as above, a password the stored hash rejects gets incorrect-password |
| Handlers.RegisterPreservesConsistent | server.js:59-66 | registering under a fresh id keeps the ownership invariant |
| Handlers.AddNoteSuccess | server.js:118-128 | for an existing user: the fresh note is stored whole with its title, content and owner, the user's record changes only in its array, which is the old one followed by the new id, and all other users and notes are unchanged |
| Handlers.AddNoteOrphans | server.js:124-130 | for an unknown user: the answer is user-not-found, users are unchanged, the note is stored anyway, and the invariant is broken |
| Handlers.AddNotePreservesConsistent | server.js:118-127 | adding a fresh note for an existing user keeps the ownership invariant |
| Handlers.AddNoteThenList | server.js:124-149 | listing right after adding shows the earlier listing followed by the new note |
| Handlers.DeleteNoteRemoves | server.js:138-141 | for an existing user: the note is gone from the notes table and from the user's array; the user's record changes only in that array, which is the pulled old array, keeping every copy of every other id in relative order; other users are unchanged |
| Handlers.DeleteNoteUnknownUser | server.js:138-140 | for an unknown user: the note is still deleted, users are unchanged, and the answer is user-not-found |
| Handlers.DeleteNoteIdempotent | server.js:138-141 | a second identical delete request changes nothing and gets the same answer |
| Handlers.DeleteNoteSkipsOwnerCheck | server.js:137-140 | a delete naming a user other than the owner still deletes the note, leaves the owner's array holding the dangling id, and breaks the invariant |
| Handlers.DeleteNotePreservesConsistent | server.js:138-141 | a delete by the note's owner, or of a note that does not exist, keeps the ownership invariant |
| Handlers.DeleteByOwnerPreservesConsistent | server.js:138-141 | the case of an existing user: a delete of that user's own note, or of an absent note, keeps the ownership invariant |
| Handlers.DeleteKeepsListsOwned | server.js:138-140 | a delete by the note's owner leaves every listed id naming a stored note of the listing user |
| Handlers.DeleteKeepsNotesListed | server.js:138-140 | a delete for an existing user leaves every remaining note listed in its owner's array |
| Handlers.DeleteNoteThenList | server.js:138-149 | listing after a delete is exactly the earlier listing with that note pulled out: it no longer shows the note and shows every other note listed before, in the same order |
| Handlers.ListNotesOwned | server.js:148-149 | while the invariant holds, a user's listing is exactly the notes that user owns, each once, in array order |
| Handlers.ListNotesDropsDangling | server.js:148 | an id whose note is gone is left out of the listing rather than making it fail |
| Handlers.ReplayConsistent | server.js:56-143 | any serial run of register requests (fresh id), add-note requests (existing user, fresh id) and delete-note requests (by the owner) keeps the ownership invariant |
| Server.Database.constructor | server.js:52-53 | an empty database satisfies the ownership invariant |
| Server.Database.Register | server.js:58-73 | saves the new user exactly as `Handlers.Register` does, with the hashed password and an empty array, and keeps the invariant |
| Server.Database.AddNote | server.js:116-131 | stores the note first, then fails if the user is missing or appends the id to the user's array; the result is exactly `Handlers.AddNote`; keeps the invariant for an existing user |
| Server.Database.DeleteNote | server.js:137-142 | deletes the note, then fails if the user is missing or pulls the id from the user's array; the result is exactly `Handlers.DeleteNote`; keeps the invariant when called by the owner |

## Left out

- HTTP plumbing. Express routing, body parsing, CORS, dotenv, `mongoose.connect`,
  `/health`, `/` and `app.listen` (server.js:1-28, 156-167) are I/O and library wiring.
- Response bodies and status codes are reduced to the error kinds above.
- bcrypt internals. The digest function, salt generation and cost are abstract; only
  the cost factor 10 is kept.
- Hash collisions. The belief that a different password fails with overwhelming
  probability cannot be stated without probabilities. `Credentials.VerifyOtherPassword`
  says it holds exactly when the hasher does not collide.
- Concurrency. Each handler runs to completion; the lost update between interleaved
  read-modify-write sequences on `user.notes` is not modelled.
- Storage and cast failures. A failing `save`, a duplicate `_id` or an id string that is
  not a valid ObjectId make the handler throw; the model has no storage faults and its
  ids are typed values.
- Absent request fields. The schemas mark no field as required, so a register without
  names or email, or an addNote without title or content, saves a document lacking those
  fields; an addNote without `userId` saves an ownerless note and then fails with a 400.
  In the model every field is always present and typed, so such documents are not
  represented. Only a missing password makes `bcrypt.hash` or `bcrypt.compare` throw;
  those register and login `catch` branches (400 responses) are not modelled.
- Email uniqueness. Nothing enforces it, and the model does not assume it, except as a
  precondition of the two login lemmas.
