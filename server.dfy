/** The server's persisted state as one object holding both collections, and the three
    handlers that write to it. Each method performs the handler's writes in the handler's
    order; its contract ties the new collections to the corresponding function of
    `Handlers` applied to the old ones, and says when the ownership invariant survives. */
module Server {
  import opened Credentials
  import opened Sequences
  import opened Store
  import Handlers

  class Database {
    /** The bcrypt binding the server uses for every password. */
    const hasher: Hasher
    var users: map<UserId, User>
    var notes: map<NoteId, Note>

    /** Both collections as they stand. */
    function Snapshot(): Tables
      reads this
    {
      Tables(users, notes)
    }

    /** A freshly connected, empty database. */
    constructor (hasher: Hasher)
      ensures this.hasher == hasher && users == map[] && notes == map[]
      ensures Handlers.Consistent(Snapshot())
    {
      this.hasher := hasher;
      users := map[];
      notes := map[];
    }

    /** POST /api/register. `id` is the `_id` the driver assigns to the new document and
        `salt` the salt bcrypt draws. */
    method Register(id: UserId, salt: Salt, firstName: string, lastName: string, email: string, password: string)
      returns (profile: Profile)
      requires id !in users
      modifies this
      ensures var s := Handlers.Register(old(Snapshot()), hasher, id, salt, firstName, lastName, email, password);
              Snapshot() == s.after && profile == s.result
      ensures users[id].password == Hash(hasher, salt, password) && users[id].notes == []
      ensures notes == old(notes)
      ensures Handlers.Consistent(old(Snapshot())) ==> Handlers.Consistent(Snapshot())
    {
      ghost var before := Snapshot();
      var credential := Hash(hasher, salt, password);
      var user := User(firstName, lastName, email, credential, []);
      users := users[id := user];
      profile := Profile(id, user.firstName, user.lastName);
      if Handlers.Consistent(before) {
        Handlers.RegisterPreservesConsistent(before, hasher, id, salt, firstName, lastName, email, password);
      }
    }

    /** POST /api/addNote. `id` is the `_id` the driver assigns to the new note. */
    method AddNote(id: NoteId, userId: UserId, title: string, content: string)
      returns (r: Result<StoredNote>)
      requires id !in notes
      modifies this
      ensures var s := Handlers.AddNote(old(Snapshot()), id, userId, title, content);
              Snapshot() == s.after && r == s.result
      ensures id in notes && notes[id] == Note(title, content, userId)
      ensures r.Err? <==> userId !in old(users)
      ensures r.Err? ==> users == old(users)
      ensures r.Ok? ==> users[userId].notes == old(users[userId].notes) + [id]
      ensures Handlers.Consistent(old(Snapshot())) && userId in old(users) ==> Handlers.Consistent(Snapshot())
    {
      ghost var before := Snapshot();
      var note := Note(title, content, userId);
      notes := notes[id := note];
      if userId !in users {
        return Err(UserNotFound);
      }
      var user := users[userId];
      user := user.(notes := user.notes + [id]);
      users := users[userId := user];
      r := Ok(StoredNote(id, note));
      if Handlers.Consistent(before) {
        Handlers.AddNotePreservesConsistent(before, id, userId, title, content);
      }
    }

    /** POST /api/deleteNote/:userId/:noteId. */
    method DeleteNote(userId: UserId, noteId: NoteId) returns (r: Result<()>)
      modifies this
      ensures var s := Handlers.DeleteNote(old(Snapshot()), userId, noteId);
              Snapshot() == s.after && r == s.result
      ensures noteId !in notes && notes == old(notes) - {noteId}
      ensures r.Err? <==> userId !in old(users)
      ensures r.Err? ==> users == old(users)
      ensures r.Ok? ==> users[userId].notes == Pull(old(users[userId].notes), noteId)
      ensures Handlers.Consistent(old(Snapshot())) && (noteId in old(notes) ==> old(notes[noteId].user) == userId)
              ==> Handlers.Consistent(Snapshot())
    {
      ghost var before := Snapshot();
      notes := notes - {noteId};
      if userId in users {
        var user := users[userId];
        user := user.(notes := Pull(user.notes, noteId));
        users := users[userId := user];
        r := Ok(());
      } else {
        r := Err(UserNotFound);
      }
      if Handlers.Consistent(before) && (noteId in before.notes ==> before.notes[noteId].user == userId) {
        Handlers.DeleteNotePreservesConsistent(before, userId, noteId);
      }
    }
  }
}
