/** The relational store created by createTables and filled by seedDatabase: the User
    and Note records, the table constraints as an invariant, the store-level writes that
    enforce those constraints, the ON DELETE CASCADE rule, and the seeding routine. */
module Schema {
  import opened Common
  import opened Decimal

  /** The ENUM('public', 'protected') column: no other value can be stored. */
  datatype Status = Public | Protected

  /** A row of User. `password` holds the bcrypt hash; `bio` and `profilePicUrl` may be NULL;
      `createdAt` is the store's clock at insertion. */
  datatype User = User(id: int, username: string, email: string, password: string,
                       bio: Option<string>, profilePicUrl: Option<string>, createdAt: int)

  /** A row of Note. `shareId` may be NULL and is not UNIQUE. */
  datatype Note = Note(id: int, userId: int, title: string, content: string,
                       shareId: Option<string>, status: Status, createdAt: int, updatedAt: int)

  function UserId(u: User): int { u.id }
  function Username(u: User): string { u.username }
  function UserEmail(u: User): string { u.email }
  function NoteId(n: Note): int { n.id }

  predicate HasUser(users: seq<User>, id: int) {
    exists u :: u in users && u.id == id
  }

  /** The first row of User with the given id (there is at most one, ids being a primary
      key): the row `WHERE id = ?` selects and `JOIN User ON Note.userId = User.id` pairs. */
  function FindUser(users: seq<User>, id: int): (r: Option<User>)
    ensures r.Some? ==> r.value in users && r.value.id == id
    ensures r.None? <==> !HasUser(users, id)
  {
    if users == [] then None
    else if users[0].id == id then Some(users[0])
    else
      var rest := FindUser(users[1..], id);
      assert forall u :: u in users[1..] ==> u in users;
      assert HasUser(users, id) ==> users[0].id == id || HasUser(users[1..], id);
      rest
  }

  predicate UsernameTaken(users: seq<User>, username: string) {
    exists u :: u in users && u.username == username
  }

  predicate EmailTaken(users: seq<User>, email: string) {
    exists u :: u in users && u.email == email
  }

  /** FOREIGN KEY (userId) REFERENCES User(id). */
  predicate OwnersExist(users: seq<User>, notes: seq<Note>) {
    forall n :: n in notes ==> HasUser(users, n.userId)
  }

  /** The constraints createTables declares: PRIMARY KEY ids, username and email each
      NOT NULL (by their types) and UNIQUE, and every note owned by an existing user. */
  predicate Consistent(users: seq<User>, notes: seq<Note>) {
    && DistinctBy(users, UserId)
    && DistinctBy(users, Username)
    && DistinctBy(users, UserEmail)
    && DistinctBy(notes, NoteId)
    && OwnersExist(users, notes)
  }

  /** DELETE FROM User WHERE id = ?, with the cascading foreign key: the user's notes go
      with it, everything else stays, and the constraints still hold. No endpoint of the
      application deletes users; this is the schema's rule. */
  function DeleteUserCascade(users: seq<User>, notes: seq<Note>, id: int): (r: (seq<User>, seq<Note>))
    ensures forall u :: u in r.0 <==> u in users && u.id != id
    ensures forall n :: n in r.1 <==> n in notes && n.userId != id
    ensures Consistent(users, notes) ==> Consistent(r.0, r.1)
  {
    var keptUsers := Filter(users, (u: User) => u.id != id);
    var keptNotes := Filter(notes, (n: Note) => n.userId != id);
    if Consistent(users, notes) then
      FilterDistinct(users, (u: User) => u.id != id, UserId);
      FilterDistinct(users, (u: User) => u.id != id, Username);
      FilterDistinct(users, (u: User) => u.id != id, UserEmail);
      FilterDistinct(notes, (n: Note) => n.userId != id, NoteId);
      assert OwnersExist(keptUsers, keptNotes) by {
        forall n | n in keptNotes ensures HasUser(keptUsers, n.userId) {
          var u :| u in users && u.id == n.userId;
          assert u in keptUsers;
        }
      }
      (keptUsers, keptNotes)
    else
      (keptUsers, keptNotes)
  }

  /** The values of one row of a multi-row INSERT INTO User. */
  datatype UserRow = UserRow(username: string, email: string, password: string, bio: Option<string>)

  /** The values of one row of a multi-row INSERT INTO Note. */
  datatype NoteRow = NoteRow(userId: int, title: string, content: string, status: Status, shareId: Option<string>)

  function RowUsername(r: UserRow): string { r.username }
  function RowEmail(r: UserRow): string { r.email }

  /** The records a multi-row INSERT INTO User creates, numbered on from the AUTO_INCREMENT counter. */
  function NewUsers(rows: seq<UserRow>, firstId: int, now: int): (r: seq<User>)
    ensures |r| == |rows|
    ensures forall k :: 0 <= k < |rows| ==>
              r[k] == User(firstId + k, rows[k].username, rows[k].email, rows[k].password, rows[k].bio, None, now)
  {
    seq(|rows|, k requires 0 <= k < |rows| =>
      User(firstId + k, rows[k].username, rows[k].email, rows[k].password, rows[k].bio, None, now))
  }

  /** The records a multi-row INSERT INTO Note creates. */
  function NewNotes(rows: seq<NoteRow>, firstId: int, now: int): (r: seq<Note>)
    ensures |r| == |rows|
    ensures forall k :: 0 <= k < |rows| ==>
              r[k] == Note(firstId + k, rows[k].userId, rows[k].title, rows[k].content, rows[k].shareId, rows[k].status, now, now)
  {
    seq(|rows|, k requires 0 <= k < |rows| =>
      Note(firstId + k, rows[k].userId, rows[k].title, rows[k].content, rows[k].shareId, rows[k].status, now, now))
  }

  /** `WHERE id = ? AND userId = ?`: the composite condition of editNote and deleteNote. */
  predicate OwnedBy(n: Note, id: int, userId: int) {
    n.id == id && n.userId == userId
  }

  /** The result of a write statement: the number of rows it matched, or a constraint violation. */
  datatype WriteResult = Affected(rows: nat) | Rejected

  // ---------------------------------------------------------------------------
  // Seed data
  // ---------------------------------------------------------------------------

  const SeedUserCount: nat := 20

  function SeedUsername(i: nat): string { "user" + NatToString(i) }
  function SeedEmail(i: nat): string { "user" + NatToString(i) + "@example.com" }
  function SeedPassword(i: nat): string { "password" + NatToString(i) }
  function SeedBio(i: nat): string { "This is a bio for " + SeedUsername(i) + " and password is " + SeedPassword(i) }
  function SeedNoteTitle(index: nat): string { "Note " + NatToString(index + 1) }
  function SeedNoteContent(index: nat, userId: int): string {
    "This is the content of note " + NatToString(index + 1) + " for user ID " + IntToString(userId) + "."
  }
  function SeedNoteStatus(index: nat): Status { if index % 2 == 0 then Public else Protected }

  /** The id column of the User table, in table order. */
  function UserIds(users: seq<User>): (ids: seq<int>)
    ensures |ids| == |users| && forall k :: 0 <= k < |users| ==> ids[k] == users[k].id
  {
    seq(|users|, k requires 0 <= k < |users| => users[k].id)
  }

  /** The userId column of the Note table, in table order. */
  function NoteOwners(notes: seq<Note>): (ids: seq<int>)
    ensures |ids| == |notes| && forall k :: 0 <= k < |notes| ==> ids[k] == notes[k].userId
  {
    seq(|notes|, k requires 0 <= k < |notes| => notes[k].userId)
  }

  /** The ids the seeded users receive when the counter stands at `first`. */
  function SeedIds(first: int): (ids: seq<int>)
    ensures |ids| == SeedUserCount && forall k :: 0 <= k < SeedUserCount ==> ids[k] == first + k
  {
    seq(SeedUserCount, k requires 0 <= k < SeedUserCount => first + k)
  }

  /** The seeded usernames and emails are pairwise distinct, so the seeding INSERT cannot
      violate the UNIQUE constraints. */
  lemma SeedNamesDistinct(i: nat, j: nat)
    requires i != j
    ensures SeedUsername(i) != SeedUsername(j)
    ensures SeedEmail(i) != SeedEmail(j)
  {
    if SeedUsername(i) == SeedUsername(j) {
      assert "user" + NatToString(i) + "" == "user" + NatToString(j) + "";
      FramedInjective("user", i, j, "");
    }
    if SeedEmail(i) == SeedEmail(j) {
      FramedInjective("user", i, j, "@example.com");
    }
  }

  /** Some user other than `id` already has `username`. */
  predicate UsernameHeldByOther(users: seq<User>, id: int, username: string) {
    exists u :: u in users && u.id != id && u.username == username
  }

  /** The rows after UPDATE User SET username, bio, profilePicUrl WHERE id = ?. */
  function RenameUser(users: seq<User>, id: int, username: string, bio: Option<string>,
                      profilePicUrl: Option<string>): (r: seq<User>)
    ensures |r| == |users|
    ensures forall k :: 0 <= k < |r| ==>
              r[k] == if users[k].id == id
                      then users[k].(username := username, bio := bio, profilePicUrl := profilePicUrl)
                      else users[k]
  {
    seq(|users|, k requires 0 <= k < |users| =>
      if users[k].id == id
      then users[k].(username := username, bio := bio, profilePicUrl := profilePicUrl)
      else users[k])
  }

  /** The profile update touches neither ids nor emails. */
  lemma RenameKeepsKeys(users: seq<User>, id: int, username: string, bio: Option<string>, profilePicUrl: Option<string>)
    requires DistinctBy(users, UserId) && DistinctBy(users, UserEmail)
    ensures DistinctBy(RenameUser(users, id, username, bio, profilePicUrl), UserId)
    ensures DistinctBy(RenameUser(users, id, username, bio, profilePicUrl), UserEmail)
    ensures forall u :: u in RenameUser(users, id, username, bio, profilePicUrl) ==>
              exists v :: v in users && v.id == u.id
  {
    var r := RenameUser(users, id, username, bio, profilePicUrl);
    forall i, j | 0 <= i < j < |r| ensures UserId(r[i]) != UserId(r[j]) && UserEmail(r[i]) != UserEmail(r[j]) {
      assert UserId(users[i]) != UserId(users[j]) && UserEmail(users[i]) != UserEmail(users[j]);
    }
    forall u | u in r ensures exists v :: v in users && v.id == u.id {
      var k :| 0 <= k < |r| && r[k] == u;
      assert users[k] in users;
    }
  }

  /** The UNIQUE username constraint survives the update unless another user holds the new name. */
  lemma RenameKeepsUsernamesUnique(users: seq<User>, id: int, username: string, bio: Option<string>, profilePicUrl: Option<string>)
    requires DistinctBy(users, UserId) && DistinctBy(users, Username)
    requires !(HasUser(users, id) && UsernameHeldByOther(users, id, username))
    ensures DistinctBy(RenameUser(users, id, username, bio, profilePicUrl), Username)
  {
    var r := RenameUser(users, id, username, bio, profilePicUrl);
    forall i, j | 0 <= i < j < |r| ensures Username(r[i]) != Username(r[j]) {
      assert UserId(users[i]) != UserId(users[j]);
      assert Username(users[i]) != Username(users[j]);
      if users[i].id == id {
        assert users[i] in users && users[j] in users;
      } else if users[j].id == id {
        assert users[i] in users && users[j] in users;
      }
    }
  }

  /** The update keeps every user id, so every note keeps its owner. */
  lemma RenameKeepsOwners(users: seq<User>, notes: seq<Note>, id: int, username: string, bio: Option<string>, profilePicUrl: Option<string>)
    requires OwnersExist(users, notes)
    ensures OwnersExist(RenameUser(users, id, username, bio, profilePicUrl), notes)
  {
    var r := RenameUser(users, id, username, bio, profilePicUrl);
    forall n | n in notes ensures HasUser(r, n.userId) {
      var u :| u in users && u.id == n.userId;
      var k :| 0 <= k < |users| && users[k] == u;
      assert r[k] in r;
    }
  }

  /** Appending rows whose usernames and emails are new, and distinct among themselves,
      with ids drawn from the counter keeps every constraint. */
  lemma AppendUsersKeepsConstraints(users: seq<User>, notes: seq<Note>, rows: seq<UserRow>, firstId: int, now: int)
    requires Consistent(users, notes) && 1 <= firstId
    requires forall u :: u in users ==> 1 <= u.id < firstId
    requires DistinctBy(rows, RowUsername) && DistinctBy(rows, RowEmail)
    requires forall r :: r in rows ==> !UsernameTaken(users, r.username) && !EmailTaken(users, r.email)
    ensures Consistent(users + NewUsers(rows, firstId, now), notes)
    ensures forall u :: u in users + NewUsers(rows, firstId, now) ==> 1 <= u.id < firstId + |rows|
  {
    var added := NewUsers(rows, firstId, now);
    forall i, j | 0 <= i < |users| && 0 <= j < |added|
      ensures UserId(users[i]) != UserId(added[j])
      ensures Username(users[i]) != Username(added[j])
      ensures UserEmail(users[i]) != UserEmail(added[j])
    {
      assert users[i] in users && rows[j] in rows;
    }
    assert DistinctBy(added, UserId);
    assert DistinctBy(added, Username) by {
      forall i, j | 0 <= i < j < |added| ensures Username(added[i]) != Username(added[j]) {
        assert RowUsername(rows[i]) != RowUsername(rows[j]);
      }
    }
    assert DistinctBy(added, UserEmail) by {
      forall i, j | 0 <= i < j < |added| ensures UserEmail(added[i]) != UserEmail(added[j]) {
        assert RowEmail(rows[i]) != RowEmail(rows[j]);
      }
    }
    DistinctConcat(users, added, UserId);
    DistinctConcat(users, added, Username);
    DistinctConcat(users, added, UserEmail);
    var all := users + added;
    forall n | n in notes ensures HasUser(all, n.userId) {
      var u :| u in users && u.id == n.userId;
      assert u in all;
    }
    forall u | u in all ensures 1 <= u.id < firstId + |rows| {
      var k :| 0 <= k < |all| && all[k] == u;
      if k >= |users| {
        assert u == added[k - |users|];
      } else {
        assert u in users;
      }
    }
  }

  /** The rows after UPDATE Note SET title, content, status, updatedAt WHERE id = ? AND userId = ?. */
  function EditRows(notes: seq<Note>, id: int, userId: int, title: string, content: string,
                    status: Status, now: int): (r: seq<Note>)
    ensures |r| == |notes|
    ensures forall k :: 0 <= k < |notes| ==>
              r[k] == if OwnedBy(notes[k], id, userId)
                      then notes[k].(title := title, content := content, status := status, updatedAt := now)
                      else notes[k]
  {
    seq(|notes|, k requires 0 <= k < |notes| =>
      if OwnedBy(notes[k], id, userId)
      then notes[k].(title := title, content := content, status := status, updatedAt := now)
      else notes[k])
  }

  /** The rows DELETE ... WHERE id = ? AND userId = ? leaves, in their order. */
  function RemainingAfterDelete(notes: seq<Note>, noteid: int, caller: int): (r: seq<Note>)
    ensures forall n :: n in r <==> n in notes && !OwnedBy(n, noteid, caller)
  {
    Filter(notes, (n: Note) => !OwnedBy(n, noteid, caller))
  }

  /** The note update never touches an id or an owner, so it keeps the note constraints. */
  lemma EditRowsKeepConstraints(users: seq<User>, notes: seq<Note>, id: int, userId: int, title: string,
                                content: string, status: Status, now: int)
    requires Consistent(users, notes)
    ensures Consistent(users, EditRows(notes, id, userId, title, content, status, now))
    ensures forall n :: n in EditRows(notes, id, userId, title, content, status, now) ==>
              exists m :: m in notes && m.id == n.id
  {
    var r := EditRows(notes, id, userId, title, content, status, now);
    forall i, j | 0 <= i < j < |r| ensures NoteId(r[i]) != NoteId(r[j]) {
      assert NoteId(notes[i]) != NoteId(notes[j]);
    }
    forall n | n in r ensures HasUser(users, n.userId) && exists m :: m in notes && m.id == n.id {
      var k :| 0 <= k < |r| && r[k] == n;
      assert notes[k] in notes;
    }
  }

  /** The database: both tables and their AUTO_INCREMENT counters. */
  class Store {
    var users: seq<User>
    var notes: seq<Note>
    var nextUserId: int
    var nextNoteId: int

    /** The table constraints hold, and every id was drawn from its counter. */
    ghost predicate Valid()
      reads this
    {
      && Consistent(users, notes)
      && 1 <= nextUserId && 1 <= nextNoteId
      && (forall u :: u in users ==> 1 <= u.id < nextUserId)
      && (forall n :: n in notes ==> 1 <= n.id < nextNoteId)
    }

    /** createTables on a fresh database: both tables exist and are empty. */
    constructor CreateTables()
      ensures Valid()
      ensures users == [] && notes == [] && nextUserId == 1 && nextNoteId == 1
    {
      users, notes := [], [];
      nextUserId, nextNoteId := 1, 1;
    }

    /** INSERT INTO User (username, email, password, bio): rejected by the UNIQUE
        constraints when the username or the email is already taken. */
    method InsertUser(row: UserRow, now: int) returns (res: WriteResult)
      requires Valid()
      modifies this
      ensures Valid()
      ensures notes == old(notes) && nextNoteId == old(nextNoteId)
      ensures res.Affected? <==> !UsernameTaken(old(users), row.username) && !EmailTaken(old(users), row.email)
      ensures res.Affected? ==> res.rows == 1
      ensures res.Affected? ==> users == old(users) + NewUsers([row], old(nextUserId), now)
                                && nextUserId == old(nextUserId) + 1
      ensures res.Rejected? ==> users == old(users) && nextUserId == old(nextUserId)
    {
      res := InsertUserRows([row], now);
    }

    /** A multi-row INSERT INTO User ... VALUES ?: all rows or none. An empty list of rows
        is an SQL syntax error, and a repeated or already taken username or email violates
        a UNIQUE constraint. */
    method InsertUserRows(rows: seq<UserRow>, now: int) returns (res: WriteResult)
      requires Valid()
      modifies this
      ensures Valid()
      ensures notes == old(notes) && nextNoteId == old(nextNoteId)
      ensures res.Affected? <==>
                && |rows| > 0
                && DistinctBy(rows, RowUsername) && DistinctBy(rows, RowEmail)
                && (forall r :: r in rows ==> !UsernameTaken(old(users), r.username) && !EmailTaken(old(users), r.email))
      ensures res.Affected? ==> res.rows == |rows|
      ensures res.Affected? ==> users == old(users) + NewUsers(rows, old(nextUserId), now)
                                && nextUserId == old(nextUserId) + |rows|
      ensures res.Rejected? ==> users == old(users) && nextUserId == old(nextUserId)
    {
      if && |rows| > 0
         && DistinctBy(rows, RowUsername) && DistinctBy(rows, RowEmail)
         && (forall r :: r in rows ==> !UsernameTaken(users, r.username) && !EmailTaken(users, r.email))
      {
        AppendUsersKeepsConstraints(users, notes, rows, nextUserId, now);
        users := users + NewUsers(rows, nextUserId, now);
        nextUserId := nextUserId + |rows|;
        res := Affected(|rows|);
      } else {
        res := Rejected;
      }
    }

    /** INSERT INTO Note (title, content, userId, status, shareId): a NULL title or content
        violates NOT NULL, and an owner that is not a user violates the foreign key. */
    method InsertNote(userId: int, title: Option<string>, content: Option<string>,
                      status: Status, shareId: Option<string>, now: int) returns (res: WriteResult)
      requires Valid()
      modifies this
      ensures Valid()
      ensures users == old(users) && nextUserId == old(nextUserId)
      ensures res.Affected? <==> title.Some? && content.Some? && HasUser(old(users), userId)
      ensures res.Affected? ==> res.rows == 1
      ensures res.Affected? ==>
                notes == old(notes) + [Note(old(nextNoteId), userId, title.value, content.value, shareId, status, now, now)]
                && nextNoteId == old(nextNoteId) + 1
      ensures res.Rejected? ==> notes == old(notes) && nextNoteId == old(nextNoteId)
    {
      if title.Some? && content.Some? && HasUser(users, userId) {
        res := InsertNoteRows([NoteRow(userId, title.value, content.value, status, shareId)], now);
      } else {
        res := Rejected;
      }
    }

    /** A multi-row INSERT INTO Note ... VALUES ?: all rows or none; rejected for an empty list
        of rows or a row whose owner is not a user. */
    method InsertNoteRows(rows: seq<NoteRow>, now: int) returns (res: WriteResult)
      requires Valid()
      modifies this
      ensures Valid()
      ensures users == old(users) && nextUserId == old(nextUserId)
      ensures res.Affected? <==> |rows| > 0 && forall r :: r in rows ==> HasUser(old(users), r.userId)
      ensures res.Affected? ==> res.rows == |rows|
      ensures res.Affected? ==> notes == old(notes) + NewNotes(rows, old(nextNoteId), now)
                                && nextNoteId == old(nextNoteId) + |rows|
      ensures res.Rejected? ==> notes == old(notes) && nextNoteId == old(nextNoteId)
    {
      if |rows| > 0 && forall r :: r in rows ==> HasUser(users, r.userId) {
        var added := NewNotes(rows, nextNoteId, now);
        assert DistinctBy(added, NoteId);
        forall i, j | 0 <= i < |notes| && 0 <= j < |added| ensures NoteId(notes[i]) != NoteId(added[j]) {
          assert notes[i] in notes;
        }
        DistinctConcat(notes, added, NoteId);
        forall n | n in added ensures HasUser(users, n.userId) {
          var k :| 0 <= k < |added| && added[k] == n;
          assert rows[k] in rows;
        }
        notes := notes + added;
        nextNoteId := nextNoteId + |rows|;
        res := Affected(|rows|);
      } else {
        res := Rejected;
      }
    }

    /** UPDATE Note SET title, content, updatedAt = NOW(), status WHERE id = ? AND userId = ?.
        Only matched rows change; setting a matched row's title or content to NULL violates
        NOT NULL and rejects the whole statement. */
    method UpdateNotes(id: int, userId: int, title: Option<string>, content: Option<string>,
                       status: Status, now: int) returns (res: WriteResult)
      requires Valid()
      modifies this`notes
      ensures Valid()
      ensures res.Rejected? <==>
                (title.None? || content.None?) && exists n :: n in old(notes) && OwnedBy(n, id, userId)
      ensures res.Rejected? ==> notes == old(notes)
      ensures res.Affected? ==> res.rows == |Filter(old(notes), (n: Note) => OwnedBy(n, id, userId))|
      ensures res.Affected? && res.rows == 0 ==> notes == old(notes)
      ensures res.Affected? && res.rows > 0 ==>
                && title.Some? && content.Some?
                && notes == EditRows(old(notes), id, userId, title.value, content.value, status, now)
    {
      var matched := Filter(notes, (n: Note) => OwnedBy(n, id, userId));
      if matched == [] {
        res := Affected(0);
      } else if title.None? || content.None? {
        assert matched[0] in matched;
        res := Rejected;
      } else {
        EditRowsKeepConstraints(users, notes, id, userId, title.value, content.value, status, now);
        ghost var before := notes;
        notes := EditRows(notes, id, userId, title.value, content.value, status, now);
        forall n | n in notes ensures 1 <= n.id < nextNoteId {
          var m :| m in before && m.id == n.id;
        }
        res := Affected(|matched|);
      }
    }

    /** DELETE FROM Note WHERE id = ? AND userId = ?: exactly the matched rows go, the others
        stay in their order. */
    method DeleteNotes(id: int, userId: int) returns (res: WriteResult)
      requires Valid()
      modifies this`notes
      ensures Valid()
      ensures notes == RemainingAfterDelete(old(notes), id, userId)
      ensures |notes| <= |old(notes)| && res == Affected(|old(notes)| - |notes|)
      ensures forall n :: n in notes <==> n in old(notes) && !OwnedBy(n, id, userId)
    {
      var before := notes;
      notes := RemainingAfterDelete(notes, id, userId);
      FilterDistinct(before, (n: Note) => !OwnedBy(n, id, userId), NoteId);
      res := Affected(|before| - |notes|);
    }

    /** UPDATE User SET username, bio, profilePicUrl WHERE id = ?: the UNIQUE constraint
        rejects a username that another user holds; no other column and no other row changes. */
    method UpdateUserRow(id: int, username: string, bio: Option<string>, profilePicUrl: Option<string>)
      returns (res: WriteResult)
      requires Valid()
      modifies this`users
      ensures Valid()
      ensures res.Rejected? <==> HasUser(old(users), id) && UsernameHeldByOther(old(users), id, username)
      ensures res.Rejected? ==> users == old(users)
      ensures res.Affected? ==> res.rows == (if HasUser(old(users), id) then 1 else 0)
      ensures res.Affected? ==> users == RenameUser(old(users), id, username, bio, profilePicUrl)
    {
      if HasUser(users, id) && UsernameHeldByOther(users, id, username) {
        res := Rejected;
      } else {
        var before := users;
        users := RenameUser(before, id, username, bio, profilePicUrl);
        RenameKeepsKeys(before, id, username, bio, profilePicUrl);
        RenameKeepsUsernamesUnique(before, id, username, bio, profilePicUrl);
        RenameKeepsOwners(before, notes, id, username, bio, profilePicUrl);
        if HasUser(before, id) {
          var u :| u in before && u.id == id;
          FilterKeyAtMostOne(before, UserId, id, (v: User) => v.id == id);
          assert u in Filter(before, (v: User) => v.id == id);
          res := Affected(1);
        } else {
          res := Affected(0);
        }
      }
    }

    /** The first half of seedDatabase: when the User table is empty, the loop builds the
        rows of `user1` .. `user20` and one bulk INSERT adds them; otherwise nothing happens. */
    method SeedUsers(hash: string -> string, now: int)
      requires Valid()
      modifies this
      ensures Valid()
      ensures notes == old(notes) && nextNoteId == old(nextNoteId)
      ensures old(users) == [] ==>
                && |users| == SeedUserCount && nextUserId == old(nextUserId) + SeedUserCount
                && forall k :: 0 <= k < SeedUserCount ==>
                     users[k] == User(old(nextUserId) + k, SeedUsername(k + 1), SeedEmail(k + 1),
                                      hash(SeedPassword(k + 1)), Some(SeedBio(k + 1)), None, now)
      ensures old(users) != [] ==> users == old(users) && nextUserId == old(nextUserId)
      ensures users != []
    {
      if |users| == 0 {
        var rows: seq<UserRow> := [];
        for i := 1 to SeedUserCount + 1
          invariant |rows| == i - 1
          invariant forall k :: 0 <= k < |rows| ==>
                      rows[k] == UserRow(SeedUsername(k + 1), SeedEmail(k + 1), hash(SeedPassword(k + 1)), Some(SeedBio(k + 1)))
        {
          var password := hash("password" + NatToString(i));
          var username := "user" + NatToString(i);
          var email := "user" + NatToString(i) + "@example.com";
          var bio := "This is a bio for " + username + " and password is " + "password" + NatToString(i);
          assert bio == SeedBio(i);
          rows := rows + [UserRow(username, email, password, Some(bio))];
        }
        assert DistinctBy(rows, RowUsername) && DistinctBy(rows, RowEmail) by {
          forall i, j | 0 <= i < j < |rows|
            ensures RowUsername(rows[i]) != RowUsername(rows[j]) && RowEmail(rows[i]) != RowEmail(rows[j])
          {
            SeedNamesDistinct(i + 1, j + 1);
          }
        }
        var inserted := InsertUserRows(rows, now);
        assert inserted.Affected?;
      }
    }

    /** The second half of seedDatabase: when the Note table is empty, one note per id that
        `SELECT id FROM User` returns, titled `Note {index+1}` after the position of the id in
        that result and public for an even position; otherwise nothing. The query has no
        ORDER BY, so its order is the parameter `userIds`, some arrangement of the stored ids. */
    method SeedNotes(userIds: seq<int>, shareIdFor: nat -> string, now: int)
      requires Valid()
      requires multiset(userIds) == multiset(UserIds(users))
      modifies this
      ensures Valid()
      ensures users == old(users) && nextUserId == old(nextUserId)
      ensures old(notes) == [] ==>
                && |notes| == |userIds| == |users| && nextNoteId == old(nextNoteId) + |users|
                && forall k :: 0 <= k < |userIds| ==>
                     notes[k] == Note(old(nextNoteId) + k, userIds[k], SeedNoteTitle(k),
                                      SeedNoteContent(k, userIds[k]), Some(shareIdFor(k)),
                                      SeedNoteStatus(k), now, now)
      ensures old(notes) == [] ==> multiset(NoteOwners(notes)) == multiset(UserIds(users))
      ensures old(notes) != [] ==> notes == old(notes) && nextNoteId == old(nextNoteId)
    {
      assert |userIds| == |multiset(userIds)| == |UserIds(users)|;
      if |notes| == 0 && |userIds| > 0 {
        var rows: seq<NoteRow> := [];
        for index := 0 to |userIds|
          invariant |rows| == index
          invariant forall k :: 0 <= k < index ==>
                      rows[k] == NoteRow(userIds[k], SeedNoteTitle(k), SeedNoteContent(k, userIds[k]),
                                         SeedNoteStatus(k), Some(shareIdFor(k)))
        {
          var title := "Note " + NatToString(index + 1);
          var content := "This is the content of note " + NatToString(index + 1) + " for user ID " + IntToString(userIds[index]) + ".";
          var status := if index % 2 == 0 then Public else Protected;
          var shareId := shareIdFor(index);
          rows := rows + [NoteRow(userIds[index], title, content, status, Some(shareId))];
        }
        forall r | r in rows ensures HasUser(users, r.userId) {
          var k :| 0 <= k < |rows| && rows[k] == r;
          assert userIds[k] in multiset(UserIds(users));
          var j :| 0 <= j < |users| && UserIds(users)[j] == userIds[k];
          assert users[j] in users;
        }
        var inserted := InsertNoteRows(rows, now);
        assert inserted.Affected?;
        assert NoteOwners(notes) == userIds;
      } else if |notes| == 0 {
        assert NoteOwners(notes) == UserIds(users);
      }
    }

    /** seedDatabase: twenty users when the User table is empty, then one note per user
        when the Note table is empty; a table that already holds rows is left alone.
        `userIds` is what `SELECT id FROM User` returns after the first half, in the order it
        returns them: the seeded ids when the table was empty, the stored ones otherwise. */
    method Seed(hash: string -> string, shareIdFor: nat -> string, userIds: seq<int>, now: int)
      requires Valid()
      requires multiset(userIds) == multiset(if users == [] then SeedIds(nextUserId) else UserIds(users))
      modifies this
      ensures Valid()
      ensures old(users) == [] ==>
                && |users| == SeedUserCount && nextUserId == old(nextUserId) + SeedUserCount
                && forall k :: 0 <= k < SeedUserCount ==>
                     users[k] == User(old(nextUserId) + k, SeedUsername(k + 1), SeedEmail(k + 1),
                                      hash(SeedPassword(k + 1)), Some(SeedBio(k + 1)), None, now)
      ensures old(users) != [] ==> users == old(users) && nextUserId == old(nextUserId)
      ensures old(notes) == [] ==>
                && |notes| == |userIds| == |users| && nextNoteId == old(nextNoteId) + |users|
                && forall k :: 0 <= k < |userIds| ==>
                     notes[k] == Note(old(nextNoteId) + k, userIds[k], SeedNoteTitle(k),
                                      SeedNoteContent(k, userIds[k]), Some(shareIdFor(k)),
                                      SeedNoteStatus(k), now, now)
      ensures old(notes) == [] ==> multiset(NoteOwners(notes)) == multiset(UserIds(users))
      ensures old(notes) != [] ==> notes == old(notes) && nextNoteId == old(nextNoteId)
      ensures users != [] && notes != []
    {
      ghost var wasEmpty := users == [];
      ghost var first := nextUserId;
      SeedUsers(hash, now);
      if wasEmpty {
        assert UserIds(users) == SeedIds(first);
      }
      SeedNotes(userIds, shareIdFor, now);
    }
  }

  /** Running the seed routine a second time changes neither table: the tables after the
      second run are the ones the first run left. */
  method SeedTwice(db: Store, hash: string -> string, shareIdFor: nat -> string, userIds: seq<int>,
                   firstRun: int, secondRun: int)
    returns (usersAfterFirst: seq<User>, notesAfterFirst: seq<Note>)
    requires db.Valid()
    requires multiset(userIds) == multiset(if db.users == [] then SeedIds(db.nextUserId) else UserIds(db.users))
    modifies db
    ensures db.Valid() && db.users != [] && db.notes != []
    ensures db.users == usersAfterFirst && db.notes == notesAfterFirst
  {
    db.Seed(hash, shareIdFor, userIds, firstRun);
    usersAfterFirst, notesAfterFirst := db.users, db.notes;
    // The second run finds both tables filled and never issues the SELECT, so any
    // arrangement of the stored ids stands for its result.
    db.Seed(hash, shareIdFor, UserIds(db.users), secondRun);
  }
}
