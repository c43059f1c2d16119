/** What each request handler does to the two collections and what it answers, as total
    functions of the tables before the request; the ownership invariant that ties a
    user's `notes` array to the notes' `user` fields; and what the handlers do to it. */
module Handlers {
  import opened Credentials
  import opened Sequences
  import opened Store

  /** The tables after a handler has run to completion, and what it answered. */
  datatype Step<R> = Step(after: Tables, result: R)

  /** Ownership invariant: every id in a user's `notes` array names a stored note whose
      owner is that user, every stored note is listed in its owner's array, and no array
      lists a note twice. Then each note is referenced by exactly one user. */
  ghost predicate Consistent(t: Tables)
  {
    ListsOwned(t) && NotesListed(t) && ListsDistinct(t)
  }

  ghost predicate ListsOwned(t: Tables)
  {
    forall u, n :: u in t.users && n in t.users[u].notes ==> n in t.notes && t.notes[n].user == u
  }

  ghost predicate NotesListed(t: Tables)
  {
    forall n :: n in t.notes ==> t.notes[n].user in t.users && n in t.users[t.notes[n].user].notes
  }

  ghost predicate ListsDistinct(t: Tables)
  {
    forall u :: u in t.users ==> Distinct(t.users[u].notes)
  }

  /** POST /api/register: hash the password, save a new user with an empty `notes`
      array under a fresh `_id`, answer with the public profile. */
  function Register(t: Tables, hasher: Hasher, id: UserId, salt: Salt,
                    firstName: string, lastName: string, email: string, password: string): (s: Step<Profile>)
    requires id !in t.users
    ensures s.after.notes == t.notes
    ensures s.after.users.Keys == t.users.Keys + {id}
    ensures s.result == ProfileOf(id, s.after.users[id])
  {
    var user := User(firstName, lastName, email, Hash(hasher, salt, password), []);
    Step(Tables(t.users[id := user], t.notes), ProfileOf(id, user))
  }

  /** POST /api/login: find some user with the email (404 if none), compare the password
      with the stored hash (401 if it does not match), answer with the public profile. */
  ghost function Login(t: Tables, hasher: Hasher, email: string, password: string): (r: Result<Profile>)
    ensures r == Err(UserNotFound) <==> forall id :: id in t.users ==> t.users[id].email != email
    ensures r.Ok? ==> && r.value.userId in t.users
                      && t.users[r.value.userId].email == email
                      && Verify(hasher, password, t.users[r.value.userId].password)
                      && r.value == ProfileOf(r.value.userId, t.users[r.value.userId])
    ensures r == Err(IncorrectPassword) ==>
              exists id :: id in t.users && t.users[id].email == email && !Verify(hasher, password, t.users[id].password)
    ensures (exists id :: id in t.users && t.users[id].email == email)
            && (forall id :: id in t.users && t.users[id].email == email ==> Verify(hasher, password, t.users[id].password))
            ==> r.Ok?
    ensures (forall id :: id in t.users && t.users[id].email == email ==> !Verify(hasher, password, t.users[id].password))
            ==> r.Err?
  {
    match FindByEmail(t.users, email)
    case None => Err(UserNotFound)
    case Some(id) =>
      if Verify(hasher, password, t.users[id].password) then Ok(ProfileOf(id, t.users[id]))
      else Err(IncorrectPassword)
  }

  /** POST /api/addNote: save the note first, then look the user up; a missing user makes
      the handler fail after the note has been stored. Otherwise push the note's id onto
      the user's `notes` and save the user. */
  function AddNote(t: Tables, id: NoteId, userId: UserId, title: string, content: string): (s: Step<Result<StoredNote>>)
    requires id !in t.notes
    ensures s.after.notes == t.notes[id := Note(title, content, userId)]
    ensures s.result.Err? <==> userId !in t.users
    ensures s.result.Err? ==> s.result.error == UserNotFound && s.after.users == t.users
    ensures s.result.Ok? ==> s.result.value == StoredNote(id, s.after.notes[id]) && s.after.users.Keys == t.users.Keys
  {
    var note := Note(title, content, userId);
    var notes := t.notes[id := note];
    if userId !in t.users then
      Step(Tables(t.users, notes), Err(UserNotFound))
    else
      var user := t.users[userId];
      Step(Tables(t.users[userId := user.(notes := user.notes + [id])], notes), Ok(StoredNote(id, note)))
  }

  /** POST /api/deleteNote/:userId/:noteId: delete the note (nothing happens if it is
      absent), then look the user up and pull every occurrence of the id from its `notes`.
      Whose note it was is never checked. */
  function DeleteNote(t: Tables, userId: UserId, noteId: NoteId): (s: Step<Result<()>>)
    ensures s.after.notes == t.notes - {noteId}
    ensures s.result.Err? <==> userId !in t.users
    ensures s.result.Err? ==> s.result.error == UserNotFound && s.after.users == t.users
    ensures s.result.Ok? ==> s.after.users.Keys == t.users.Keys
  {
    var notes := t.notes - {noteId};
    if userId !in t.users then
      Step(Tables(t.users, notes), Err(UserNotFound))
    else
      var user := t.users[userId];
      Step(Tables(t.users[userId := user.(notes := Pull(user.notes, noteId))], notes), Ok(()))
  }

  /** GET /api/getUserNotes/:userId: the user's notes array populated against the notes
      collection. */
  function ListNotes(t: Tables, userId: UserId): (r: Result<seq<StoredNote>>)
    ensures r.Err? <==> userId !in t.users
    ensures r.Err? ==> r.error == UserNotFound
    ensures r.Ok? ==> |r.value| <= |t.users[userId].notes|
    ensures r.Ok? ==> IdsOf(r.value) == Filter(t.users[userId].notes, Live(t.notes))
    ensures r.Ok? ==> SubsequenceOf(IdsOf(r.value), t.users[userId].notes)
    ensures r.Ok? ==> forall k :: 0 <= k < |r.value| ==>
                        r.value[k].id in t.notes && r.value[k].note == t.notes[r.value[k].id]
  {
    if userId !in t.users then Err(UserNotFound)
    else
      var ids := t.users[userId].notes;
      FilterIsSubsequence(ids, Live(t.notes));
      Ok(Populate(ids, t.notes))
  }

  // ---------------------------------------------------------------------------------
  // Register and login

  lemma RegisterCreatesUser(t: Tables, hasher: Hasher, id: UserId, salt: Salt,
                            firstName: string, lastName: string, email: string, password: string)
    requires id !in t.users
    ensures var s := Register(t, hasher, id, salt, firstName, lastName, email, password);
            && s.after.notes == t.notes
            && s.after.users.Keys == t.users.Keys + {id}
            && (forall u :: u in t.users ==> s.after.users[u] == t.users[u])
            && s.after.users[id] == User(firstName, lastName, email, Hash(hasher, salt, password), [])
            && s.result == Profile(id, firstName, lastName)
  {
  }

  /** A user who has just registered with an email no other account uses logs in with
      the same password and gets their own id back. */
  lemma LoginAfterRegister(t: Tables, hasher: Hasher, id: UserId, salt: Salt,
                           firstName: string, lastName: string, email: string, password: string)
    requires id !in t.users
    requires forall u :: u in t.users ==> t.users[u].email != email
    ensures Login(Register(t, hasher, id, salt, firstName, lastName, email, password).after, hasher, email, password)
            == Ok(Profile(id, firstName, lastName))
  {
    var after := Register(t, hasher, id, salt, firstName, lastName, email, password).after;
    assert after.users[id].email == email;
    var found := FindByEmail(after.users, email);
    assert found == Some(id);
  }

  /** A password that does not verify against the stored hash is refused with 401. */
  lemma LoginWrongPassword(t: Tables, hasher: Hasher, id: UserId, salt: Salt,
                           firstName: string, lastName: string, email: string, password: string, attempt: string)
    requires id !in t.users
    requires forall u :: u in t.users ==> t.users[u].email != email
    requires !Verify(hasher, attempt, Hash(hasher, salt, password))
    ensures Login(Register(t, hasher, id, salt, firstName, lastName, email, password).after, hasher, email, attempt)
            == Err(IncorrectPassword)
  {
    var after := Register(t, hasher, id, salt, firstName, lastName, email, password).after;
    assert after.users[id].email == email;
    var found := FindByEmail(after.users, email);
    assert found == Some(id);
  }

  lemma RegisterPreservesConsistent(t: Tables, hasher: Hasher, id: UserId, salt: Salt,
                                    firstName: string, lastName: string, email: string, password: string)
    requires Consistent(t) && id !in t.users
    ensures Consistent(Register(t, hasher, id, salt, firstName, lastName, email, password).after)
  {
  }

  // ---------------------------------------------------------------------------------
  // Adding a note

  lemma AddNoteSuccess(t: Tables, id: NoteId, userId: UserId, title: string, content: string)
    requires id !in t.notes && userId in t.users
    ensures var s := AddNote(t, id, userId, title, content);
            && s.result == Ok(StoredNote(id, Note(title, content, userId)))
            && s.after.notes.Keys == t.notes.Keys + {id}
            && s.after.notes[id] == Note(title, content, userId)
            && (forall n :: n in t.notes ==> s.after.notes[n] == t.notes[n])
            && s.after.users.Keys == t.users.Keys
            && s.after.users[userId] == t.users[userId].(notes := t.users[userId].notes + [id])
            && (forall u :: u in t.users && u != userId ==> s.after.users[u] == t.users[u])
  {
  }

  /** The note is saved before its owner is looked up: with an unknown user it stays
      stored, owned by nobody, and the invariant is broken whatever held before. */
  lemma AddNoteOrphans(t: Tables, id: NoteId, userId: UserId, title: string, content: string)
    requires id !in t.notes && userId !in t.users
    ensures var s := AddNote(t, id, userId, title, content);
            && s.result == Err(UserNotFound)
            && s.after.users == t.users
            && s.after.notes == t.notes[id := Note(title, content, userId)]
            && !Consistent(s.after)
  {
    var s := AddNote(t, id, userId, title, content);
    assert id in s.after.notes && s.after.notes[id].user !in s.after.users;
  }

  lemma AddNotePreservesConsistent(t: Tables, id: NoteId, userId: UserId, title: string, content: string)
    requires Consistent(t) && id !in t.notes && userId in t.users
    ensures Consistent(AddNote(t, id, userId, title, content).after)
  {
    var a := AddNote(t, id, userId, title, content).after;
    var list := t.users[userId].notes;
    assert a.users == t.users[userId := t.users[userId].(notes := list + [id])];
    assert a.notes == t.notes[id := Note(title, content, userId)];
    forall u, n | u in a.users && n in a.users[u].notes
      ensures n in a.notes && a.notes[n].user == u
    {
      if u != userId {
        assert a.users[u] == t.users[u];
        assert n in t.notes && t.notes[n].user == u;
      } else if n != id {
        assert n in list;
      }
    }
    forall n | n in a.notes
      ensures a.notes[n].user in a.users && n in a.users[a.notes[n].user].notes
    {
      if n != id {
        var owner := t.notes[n].user;
        assert owner in t.users && n in t.users[owner].notes;
      }
    }
    forall u | u in a.users
      ensures Distinct(a.users[u].notes)
    {
      if u == userId {
        AppendDistinct(list, id);
      }
    }
  }

  /** Listing right after adding shows the earlier notes followed by the new one. */
  lemma AddNoteThenList(t: Tables, id: NoteId, userId: UserId, title: string, content: string)
    requires id !in t.notes && userId in t.users && id !in t.users[userId].notes
    ensures ListNotes(AddNote(t, id, userId, title, content).after, userId)
            == Ok(ListNotes(t, userId).value + [StoredNote(id, Note(title, content, userId))])
  {
    var note := Note(title, content, userId);
    var list := t.users[userId].notes;
    var notes := t.notes[id := note];
    PopulateConcat(list, [id], notes);
    PopulateFrame(list, t.notes, id, note);
    assert Populate([id], notes) == [StoredNote(id, note)];
  }

  // ---------------------------------------------------------------------------------
  // Deleting a note

  lemma DeleteNoteRemoves(t: Tables, userId: UserId, noteId: NoteId)
    requires userId in t.users
    ensures var s := DeleteNote(t, userId, noteId);
            && s.result == Ok(())
            && s.after.notes == t.notes - {noteId}
            && s.after.users.Keys == t.users.Keys
            && noteId !in s.after.users[userId].notes
            && SubsequenceOf(s.after.users[userId].notes, t.users[userId].notes)
            && (forall n :: n != noteId ==> (n in s.after.users[userId].notes <==> n in t.users[userId].notes))
            && multiset(s.after.users[userId].notes) == multiset(t.users[userId].notes)[noteId := 0]
            && s.after.users[userId] == t.users[userId].(notes := Pull(t.users[userId].notes, noteId))
            && (forall u :: u in t.users && u != userId ==> s.after.users[u] == t.users[u])
  {
    PullCounts(t.users[userId].notes, noteId);
  }

  /** Without a user the handler fails, but only after the note has been deleted. */
  lemma DeleteNoteUnknownUser(t: Tables, userId: UserId, noteId: NoteId)
    requires userId !in t.users
    ensures var s := DeleteNote(t, userId, noteId);
            && s.result == Err(UserNotFound)
            && s.after.notes == t.notes - {noteId}
            && s.after.users == t.users
  {
  }

  /** Deleting a missing note and pulling a missing id both do nothing, so a second
      identical request changes nothing and answers the same. */
  lemma DeleteNoteIdempotent(t: Tables, userId: UserId, noteId: NoteId)
    ensures var once := DeleteNote(t, userId, noteId);
            DeleteNote(once.after, userId, noteId) == once
  {
  }

  /** There is no owner check: a request naming another user deletes the note anyway and
      leaves its id dangling in the real owner's array, so the invariant is broken. */
  lemma DeleteNoteSkipsOwnerCheck(t: Tables, userId: UserId, noteId: NoteId)
    requires Consistent(t) && noteId in t.notes && t.notes[noteId].user != userId
    ensures var s := DeleteNote(t, userId, noteId);
            var owner := t.notes[noteId].user;
            && noteId !in s.after.notes
            && owner in s.after.users
            && noteId in s.after.users[owner].notes
            && !Consistent(s.after)
  {
  }

  lemma DeleteNotePreservesConsistent(t: Tables, userId: UserId, noteId: NoteId)
    requires Consistent(t)
    requires noteId in t.notes ==> t.notes[noteId].user == userId
    ensures Consistent(DeleteNote(t, userId, noteId).after)
  {
    if userId !in t.users {
      assert noteId !in t.notes;
      assert t.notes - {noteId} == t.notes;
    } else {
      DeleteByOwnerPreservesConsistent(t, userId, noteId);
    }
  }

  lemma DeleteByOwnerPreservesConsistent(t: Tables, userId: UserId, noteId: NoteId)
    requires Consistent(t) && userId in t.users
    requires noteId in t.notes ==> t.notes[noteId].user == userId
    ensures Consistent(DeleteNote(t, userId, noteId).after)
  {
    DeleteKeepsListsOwned(t, userId, noteId);
    DeleteKeepsNotesListed(t, userId, noteId);
    var list := t.users[userId].notes;
    PullDistinct(list, noteId);
  }

  lemma DeleteKeepsListsOwned(t: Tables, userId: UserId, noteId: NoteId)
    requires ListsOwned(t) && userId in t.users
    requires noteId in t.notes ==> t.notes[noteId].user == userId
    ensures ListsOwned(DeleteNote(t, userId, noteId).after)
  {
    var a := DeleteNote(t, userId, noteId).after;
    var list := t.users[userId].notes;
    var pulled := Pull(list, noteId);
    assert a.users == t.users[userId := t.users[userId].(notes := pulled)];
    assert a.notes == t.notes - {noteId};
    forall u, n | u in a.users && n in a.users[u].notes
      ensures n in a.notes && a.notes[n].user == u
    {
      if u == userId {
        assert n in pulled;
        assert n != noteId && n in list;
      } else {
        assert a.users[u] == t.users[u];
        assert n in t.users[u].notes;
      }
    }
  }

  lemma DeleteKeepsNotesListed(t: Tables, userId: UserId, noteId: NoteId)
    requires NotesListed(t) && userId in t.users
    ensures NotesListed(DeleteNote(t, userId, noteId).after)
  {
    var a := DeleteNote(t, userId, noteId).after;
    forall n | n in a.notes
      ensures a.notes[n].user in a.users && n in a.users[a.notes[n].user].notes
    {
      var owner := t.notes[n].user;
      assert owner in t.users && n in t.users[owner].notes;
    }
  }

  /** Listing after a delete no longer shows the note, and shows every other note it
      showed before. */
  lemma DeleteNoteThenList(t: Tables, userId: UserId, noteId: NoteId)
    requires userId in t.users
    ensures var r := ListNotes(DeleteNote(t, userId, noteId).after, userId);
            && r.Ok?
            && noteId !in IdsOf(r.value)
            && (forall n :: n != noteId ==> (n in IdsOf(r.value) <==> n in IdsOf(ListNotes(t, userId).value)))
            && IdsOf(r.value) == Pull(IdsOf(ListNotes(t, userId).value), noteId)
  {
    var list := t.users[userId].notes;
    var notes := t.notes - {noteId};
    forall x ensures (Except(noteId)(x) && Live(notes)(x)) == (Live(t.notes)(x) && Except(noteId)(x)) {
    }
    FilterFilter(list, Except(noteId), Live(notes), Live(t.notes), Except(noteId));
  }

  // ---------------------------------------------------------------------------------
  // Listing notes

  /** While the invariant holds, a user's listing is exactly the notes stored with that
      user as owner, each once, in the order they were added. */
  lemma ListNotesOwned(t: Tables, userId: UserId)
    requires Consistent(t) && userId in t.users
    ensures var r := ListNotes(t, userId);
            && r.Ok?
            && IdsOf(r.value) == t.users[userId].notes
            && Distinct(IdsOf(r.value))
            && (forall n :: n in IdsOf(r.value) <==> n in t.notes && t.notes[n].user == userId)
  {
    var list := t.users[userId].notes;
    FilterKeepsAll(list, Live(t.notes));
  }

  /** A note that has vanished from the notes collection is left out of the listing
      rather than making it fail. */
  lemma ListNotesDropsDangling(t: Tables, userId: UserId, noteId: NoteId)
    requires userId in t.users && noteId in t.users[userId].notes && noteId !in t.notes
    ensures ListNotes(t, userId).Ok?
    ensures noteId !in IdsOf(ListNotes(t, userId).value)
    ensures |ListNotes(t, userId).value| < |t.users[userId].notes|
  {
    var list := t.users[userId].notes;
    FilterShorter(list, Live(t.notes), noteId);
  }

  // ---------------------------------------------------------------------------------
  // Serial histories

  /** A request to one of the three handlers that write to the tables. A register
      request carries the `_id` the driver assigns and `salt` the salt bcrypt draws. */
  datatype Request =
    | RegisterRequest(userId: UserId, salt: Salt, firstName: string, lastName: string, email: string, password: string)
    | AddNoteRequest(id: NoteId, userId: UserId, title: string, content: string)
    | DeleteNoteRequest(userId: UserId, noteId: NoteId)

  /** A request made the way the handlers expect to be used: a user registered under a
      fresh id, a note added for an existing user under a fresh id, a note deleted by its
      owner. */
  ghost predicate Admissible(t: Tables, req: Request)
  {
    match req
    case RegisterRequest(userId, _, _, _, _, _) => userId !in t.users
    case AddNoteRequest(id, userId, _, _) => id !in t.notes && userId in t.users
    case DeleteNoteRequest(userId, noteId) => noteId in t.notes ==> t.notes[noteId].user == userId
  }

  function Apply(t: Tables, hasher: Hasher, req: Request): Tables
    requires req.RegisterRequest? ==> req.userId !in t.users
    requires req.AddNoteRequest? ==> req.id !in t.notes
  {
    match req
    case RegisterRequest(id, salt, firstName, lastName, email, password) =>
      Register(t, hasher, id, salt, firstName, lastName, email, password).after
    case AddNoteRequest(id, userId, title, content) => AddNote(t, id, userId, title, content).after
    case DeleteNoteRequest(userId, noteId) => DeleteNote(t, userId, noteId).after
  }

  /** Every request of the history is admissible in the state the earlier ones left. */
  ghost predicate Serial(t: Tables, hasher: Hasher, reqs: seq<Request>)
    decreases |reqs|
  {
    reqs == [] || (Admissible(t, reqs[0]) && Serial(Apply(t, hasher, reqs[0]), hasher, reqs[1..]))
  }

  /** The tables after running the requests one after the other, each to completion. */
  function Replay(t: Tables, hasher: Hasher, reqs: seq<Request>): Tables
    requires Serial(t, hasher, reqs)
    decreases |reqs|
  {
    if reqs == [] then t else Replay(Apply(t, hasher, reqs[0]), hasher, reqs[1..])
  }

  /** Handlers run one at a time, each request admissible: every user's array keeps
      matching exactly the notes that user owns. */
  lemma {:induction false} ReplayConsistent(t: Tables, hasher: Hasher, reqs: seq<Request>)
    requires Consistent(t) && Serial(t, hasher, reqs)
    ensures Consistent(Replay(t, hasher, reqs))
    decreases |reqs|
  {
    if reqs != [] {
      match reqs[0] {
        case RegisterRequest(id, salt, firstName, lastName, email, password) =>
          RegisterPreservesConsistent(t, hasher, id, salt, firstName, lastName, email, password);
        case AddNoteRequest(id, userId, title, content) =>
          AddNotePreservesConsistent(t, id, userId, title, content);
        case DeleteNoteRequest(userId, noteId) =>
          DeleteNotePreservesConsistent(t, userId, noteId);
      }
      ReplayConsistent(Apply(t, hasher, reqs[0]), hasher, reqs[1..]);
    }
  }
}
