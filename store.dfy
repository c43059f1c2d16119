/** The persisted state: the `users` and `notes` collections with the record shapes of
    `userSchema` and `noteSchema`, and the two lookups the handlers make against them
    (`User.findOne({email})` and `populate("notes")`). */
module Store {
  import opened Credentials
  import opened Sequences

  /** A MongoDB ObjectId: twelve bytes. */
  newtype ObjectId = x: int | 0 <= x < 0x1_0000_0000_0000_0000_0000_0000

  datatype UserId = UserId(oid: ObjectId)
  datatype NoteId = NoteId(oid: ObjectId)

  /** A document of the `users` collection. `notes` is an array of references to notes,
      in the order they were pushed. */
  datatype User = User(firstName: string, lastName: string, email: string,
                       password: Credential, notes: seq<NoteId>)

  /** A document of the `notes` collection; `user` refers to its owner. */
  datatype Note = Note(title: string, content: string, user: UserId)

  /** Both collections, keyed by `_id`. */
  datatype Tables = Tables(users: map<UserId, User>, notes: map<NoteId, Note>)

  /** What a handler reports: its value, or the kind of error it answered with. */
  datatype Error = UserNotFound | IncorrectPassword
  datatype Result<T> = Ok(value: T) | Err(error: Error)
  datatype Option<T> = None | Some(value: T)

  /** The user object the register and login handlers send back. It has no password field. */
  datatype Profile = Profile(userId: UserId, firstName: string, lastName: string)

  /** A note document as it is sent back: its `_id` together with its fields. */
  datatype StoredNote = StoredNote(id: NoteId, note: Note)

  function ProfileOf(id: UserId, user: User): Profile
  {
    Profile(id, user.firstName, user.lastName)
  }

  /** `User.findOne({ email })`: some user with that email, if there is one. Emails are
      not unique, so which one is found is left open. */
  ghost function FindByEmail(users: map<UserId, User>, email: string): (r: Option<UserId>)
    ensures r.None? <==> forall id :: id in users ==> users[id].email != email
    ensures r.Some? ==> r.value in users && users[r.value].email == email
  {
    if exists id :: id in users && users[id].email == email then
      var id :| id in users && users[id].email == email; Some(id)
    else None
  }

  /** "This id refers to a stored note". */
  function Live(notes: map<NoteId, Note>): NoteId -> bool
  {
    id => id in notes
  }

  function IdsOf(r: seq<StoredNote>): seq<NoteId>
  {
    seq(|r|, k requires 0 <= k < |r| => r[k].id)
  }

  /** `populate` of an array of note references: each id that still refers to a stored
      note is replaced by that note, ids of missing notes are dropped, order is kept. */
  function Populate(ids: seq<NoteId>, notes: map<NoteId, Note>): (r: seq<StoredNote>)
    ensures IdsOf(r) == Filter(ids, Live(notes))
    ensures forall k :: 0 <= k < |r| ==> r[k].id in notes && r[k].note == notes[r[k].id]
  {
    if ids == [] then []
    else
      var rest := Populate(ids[1..], notes);
      var head := if ids[0] in notes then [StoredNote(ids[0], notes[ids[0]])] else [];
      IdsOfConcat(head, rest);
      head + rest
  }

  lemma IdsOfConcat(a: seq<StoredNote>, b: seq<StoredNote>)
    ensures IdsOf(a + b) == IdsOf(a) + IdsOf(b)
  {
    assert |IdsOf(a + b)| == |IdsOf(a) + IdsOf(b)|;
    forall k | 0 <= k < |a + b| ensures IdsOf(a + b)[k] == (IdsOf(a) + IdsOf(b))[k] {
      if k < |a| {
        assert (a + b)[k] == a[k];
      } else {
        assert (a + b)[k] == b[k - |a|];
      }
    }
  }

  lemma {:induction false} PopulateConcat(a: seq<NoteId>, b: seq<NoteId>, notes: map<NoteId, Note>)
    ensures Populate(a + b, notes) == Populate(a, notes) + Populate(b, notes)
  {
    if a == [] {
      assert a + b == b;
    } else {
      assert (a + b)[0] == a[0] && (a + b)[1..] == a[1..] + b;
      PopulateConcat(a[1..], b, notes);
    }
  }

  /** Storing a note under an id the array does not mention does not change what it
      populates to. */
  lemma {:induction false} PopulateFrame(ids: seq<NoteId>, notes: map<NoteId, Note>, id: NoteId, note: Note)
    requires id !in ids
    ensures Populate(ids, notes[id := note]) == Populate(ids, notes)
  {
    if ids != [] {
      assert forall x :: x in ids[1..] ==> x in ids;
      assert id !in ids[1..] && ids[0] != id;
      PopulateFrame(ids[1..], notes, id, note);
    }
  }
}
