/** The note handlers. The read handlers are functions of the Note (and User) table; the
    write handlers are methods on the store, taking the caller's id from the verified token. */
module NoteController {
  import opened Common
  import opened Schema

  /** A row of getNotes: the note's listed columns joined with its owner's username. */
  datatype NoteSummary = NoteSummary(id: int, title: string, content: string, createdAt: int,
                                     status: Status, username: string)

  /** A row of getNote and searchData: `SELECT id, title, content, createdAt, status`. */
  datatype NoteView = NoteView(id: int, title: string, content: string, createdAt: int, status: Status)

  function ViewOf(n: Note): NoteView {
    NoteView(n.id, n.title, n.content, n.createdAt, n.status)
  }

  /** The projection of each row, in order. */
  function Views(notes: seq<Note>): (r: seq<NoteView>)
    ensures |r| == |notes|
    ensures forall k :: 0 <= k < |notes| ==> r[k] == ViewOf(notes[k])
  {
    seq(|notes|, k requires 0 <= k < |notes| => ViewOf(notes[k]))
  }

  function Summarize(n: Note, owner: User): NoteSummary {
    NoteSummary(n.id, n.title, n.content, n.createdAt, n.status, owner.username)
  }

  /** getNotes: every public note that has an owner, paired with the owner's username; the
      inner join drops a note whose owner is missing, and a protected note never appears. */
  function GetNotes(users: seq<User>, notes: seq<Note>): (r: seq<NoteSummary>)
    ensures |r| <= |notes|
    ensures forall x :: x in r ==> x.status == Public
    ensures forall x :: x in r ==>
              exists n, u :: n in notes && u in users && n.status == Public && u.id == n.userId
                             && x == Summarize(n, u)
    ensures forall n :: n in notes && n.status == Public && HasUser(users, n.userId) ==>
              Summarize(n, FindUser(users, n.userId).value) in r
  {
    if notes == [] then []
    else
      var rest := GetNotes(users, notes[1..]);
      assert forall n :: n in notes[1..] ==> n in notes;
      var n := notes[0];
      var owner := FindUser(users, n.userId);
      if n.status == Public && owner.Some? then [Summarize(n, owner.value)] + rest else rest
  }

  /** A protected note's id never shows up in the public listing. */
  lemma GetNotesHidesProtected(users: seq<User>, notes: seq<Note>, n: Note)
    requires DistinctBy(notes, NoteId)
    requires n in notes && n.status == Protected
    ensures forall x :: x in GetNotes(users, notes) ==> x.id != n.id
  {
    forall x | x in GetNotes(users, notes) ensures x.id != n.id {
      var m, u :| m in notes && u in users && m.status == Public && u.id == m.userId && x == Summarize(m, u);
      var i :| 0 <= i < |notes| && notes[i] == m;
      var j :| 0 <= j < |notes| && notes[j] == n;
      assert i != j;
      assert NoteId(notes[i]) != NoteId(notes[j]);
    }
  }

  /** userNotes as written: `SELECT * FROM Note WHERE id = ?` with the `:userid` parameter,
      so it filters on the note's own id. */
  function UserNotes(notes: seq<Note>, userid: int): (r: seq<Note>)
    ensures forall n :: n in r <==> n in notes && n.id == userid
    ensures DistinctBy(notes, NoteId) ==> |r| <= 1
  {
    var r := Filter(notes, (n: Note) => n.id == userid);
    if DistinctBy(notes, NoteId) then
      FilterKeyAtMostOne(notes, NoteId, userid, (n: Note) => n.id == userid);
      r
    else
      r
  }

  /** What the owner's list is evidently meant to be (the profile page requests it with the
      signed-in user's id): every note the user owns, public or protected, in table order. */
  function OwnedNotes(notes: seq<Note>, userId: int): (r: seq<Note>)
    ensures forall n :: n in r <==> n in notes && n.userId == userId
    ensures forall n :: n in r && n.status == Protected ==> n.userId == userId
  {
    Filter(notes, (n: Note) => n.userId == userId)
  }

  /** userNotes as written misses the owner's notes: user 2 owns note 1, and asking for the
      notes of user 2 returns nothing, while the owner's list holds note 1. */
  lemma UserNotesMissesOwnedNote()
    ensures var n := Note(1, 2, "T", "<p>hi</p>", Some("abc123xyz"), Public, 0, 0);
            UserNotes([n], 2) == [] && OwnedNotes([n], 2) == [n]
  {
    var n := Note(1, 2, "T", "<p>hi</p>", Some("abc123xyz"), Public, 0, 0);
    assert n !in UserNotes([n], 2);
    assert n in OwnedNotes([n], 2);
  }

  const NoteNotFound: string := "Note not found"

  /** getNote: the note with the requested id if it is public, otherwise 404. A missing
      `:noteid` parameter binds SQL NULL, which equals nothing. */
  function GetNote(notes: seq<Note>, noteid: Option<int>): (r: Response<NoteView>)
    ensures r.Ok? <==> noteid.Some? && exists n :: n in notes && n.id == noteid.value && n.status == Public
    ensures r.Ok? ==> r.code == OK && exists n :: n in notes && n.id == noteid.value && n.status == Public
                                                   && r.body == ViewOf(n)
    ensures r.Err? ==> r == Err(NOT_FOUND, NoteNotFound)
  {
    var rows := Filter(notes, (n: Note) => noteid == Some(n.id) && n.status == Public);
    if rows == [] then
      Err(NOT_FOUND, NoteNotFound)
    else
      assert rows[0] in rows;
      Ok(OK, ViewOf(rows[0]))
  }

  /** A protected note is never returned by getNote. */
  lemma GetNoteHidesProtected(notes: seq<Note>, n: Note)
    requires DistinctBy(notes, NoteId)
    requires n in notes && n.status == Protected
    ensures GetNote(notes, Some(n.id)) == Err(NOT_FOUND, NoteNotFound)
  {
    forall m | m in notes && m.id == n.id ensures m == n {
      SameIdSameNote(notes, m, n);
    }
  }

  /** Under a primary key, a note is determined by its id. */
  lemma SameIdSameNote(notes: seq<Note>, m: Note, n: Note)
    requires DistinctBy(notes, NoteId)
    requires m in notes && n in notes && m.id == n.id
    ensures m == n
  {
    var i :| 0 <= i < |notes| && notes[i] == m;
    var j :| 0 <= j < |notes| && notes[j] == n;
    assert NoteId(notes[i]) == NoteId(notes[j]);
  }

  /** String.prototype.trim's white space: WhiteSpace and LineTerminator code points. */
  predicate IsTrimmed(c: char) {
    c in {'\U{0009}', '\U{000A}', '\U{000B}', '\U{000C}', '\U{000D}', '\U{0020}', '\U{00A0}', '\U{1680}',
          '\U{2000}', '\U{2001}', '\U{2002}', '\U{2003}', '\U{2004}', '\U{2005}', '\U{2006}', '\U{2007}',
          '\U{2008}', '\U{2009}', '\U{200A}', '\U{2028}', '\U{2029}', '\U{202F}', '\U{205F}', '\U{3000}',
          '\U{FEFF}'}  }

  /** `query.trim()`: the query with its leading and trailing white space removed. */
  function Trim(s: string): (t: string)
    ensures |t| <= |s|
    ensures t == "" <==> forall i :: 0 <= i < |s| ==> IsTrimmed(s[i])
  {
    var start := TrimStart(s);
    TrimEnd(start)
  }

  function TrimStart(s: string): (t: string)
    ensures |t| <= |s|
    ensures t == "" <==> forall i :: 0 <= i < |s| ==> IsTrimmed(s[i])
    ensures t != "" ==> !IsTrimmed(t[0])
  {
    if s == [] then s
    else if IsTrimmed(s[0]) then
      assert forall i :: 1 <= i < |s| ==> s[i] == s[1..][i - 1];
      TrimStart(s[1..])
    else s
  }

  function TrimEnd(s: string): (t: string)
    ensures |t| <= |s|
    ensures t == "" <==> forall i :: 0 <= i < |s| ==> IsTrimmed(s[i])
    ensures s != [] && !IsTrimmed(s[0]) ==> t != ""
  {
    if s == [] then s
    else if IsTrimmed(s[|s| - 1]) then
      assert forall i :: 0 <= i < |s| - 1 ==> s[i] == s[..|s| - 1][i];
      TrimEnd(s[..|s| - 1])
    else s
  }

  const QueryRequired: string := "Query is required"
  const NoNotesFound: string := "No notes found"

  /** searchData: 400 for an absent, empty or white-space-only query; otherwise every note
      whose shareId equals the query, whatever its status, or 404 when there is none. */
  function SearchData(notes: seq<Note>, query: Option<string>): (r: Response<seq<NoteView>>)
    ensures r == Err(BAD_REQUEST, QueryRequired) <==>
              query.None? || forall i :: 0 <= i < |query.value| ==> IsTrimmed(query.value[i])
    ensures r == Err(NOT_FOUND, NoNotesFound) <==>
              && query.Some? && Trim(query.value) != ""
              && forall n :: n in notes ==> n.shareId != query
    ensures r.Ok? ==> r.code == OK && query.Some?
    ensures r.Ok? ==> forall v :: v in r.body <==> exists n :: n in notes && n.shareId == query && v == ViewOf(n)
  {
    if query.None? || Trim(query.value) == "" then
      Err(BAD_REQUEST, QueryRequired)
    else
      var rows := Filter(notes, (n: Note) => n.shareId == query);
      if |rows| == 0 then
        assert forall n :: n in notes ==> n.shareId != query;
        Err(NOT_FOUND, NoNotesFound)
      else
        assert rows[0] in rows;
        var views := Views(rows);
        assert forall v :: v in views ==> exists n :: n in rows && v == ViewOf(n) by {
          forall v | v in views ensures exists n :: n in rows && v == ViewOf(n) {
            var k :| 0 <= k < |views| && views[k] == v;
            assert rows[k] in rows;
          }
        }
        assert forall n :: n in rows ==> ViewOf(n) in views by {
          forall n | n in rows ensures ViewOf(n) in views {
            var k :| 0 <= k < |rows| && rows[k] == n;
            assert views[k] == ViewOf(n);
          }
        }
        Ok(OK, views)
  }

  /** The search ignores visibility, and shareId is not unique: every note carrying the
      searched shareId is returned, two at once when two notes share it. */
  lemma SearchFindsEverySharer(notes: seq<Note>, a: Note, b: Note, q: string)
    requires a in notes && b in notes
    requires a.shareId == Some(q) && b.shareId == Some(q)
    requires Trim(q) != ""
    ensures SearchData(notes, Some(q)).Ok?
    ensures ViewOf(a) in SearchData(notes, Some(q)).body && ViewOf(b) in SearchData(notes, Some(q)).body
  {
    assert a in notes && a.shareId == Some(q);
  }

  // ---------------------------------------------------------------------------
  // Writes
  // ---------------------------------------------------------------------------

  const NoteCreated: string := "Note created successfully"
  const NoteCreationFailed: string := "Server error during note creation"
  const NoteNotFoundOrUnauthorized: string := "Note not found or unauthorized"
  const NoteUpdated: string := "Note updated successfully"
  const NoteUpdateFailed: string := "Server error during note update"
  const NoteDeleted: string := "Note deleted successfully"

  /** createNote: one new row owned by the caller, with the given title, content, status and
      shareId as they are (no check that the shareId is unused). The insert fails, with 500,
      only on a missing title or content or an owner that is not a user. */
  method CreateNote(db: Store, caller: int, title: Option<string>, content: Option<string>,
                    status: Status, shareId: Option<string>, now: int) returns (r: Response<string>)
    requires db.Valid()
    modifies db
    ensures db.Valid()
    ensures db.users == old(db.users)
    ensures r == Ok(CREATED, NoteCreated) <==> title.Some? && content.Some? && HasUser(db.users, caller)
    ensures r.Ok? ==> (
              && title.Some? && content.Some?
              && db.notes == old(db.notes) + [Note(old(db.nextNoteId), caller, title.value, content.value,
                                                shareId, status, now, now)])
    ensures r.Err? ==> r == Err(SERVER_ERROR, NoteCreationFailed) && db.notes == old(db.notes)
  {
    var res := db.InsertNote(caller, title, content, status, shareId, now);
    if res.Rejected? {
      return Err(SERVER_ERROR, NoteCreationFailed);
    }
    r := Ok(CREATED, NoteCreated);
  }

  /** editNote: only the row with this id AND the caller as owner changes (title, content,
      status, updatedAt); when there is no such row, the note is missing or someone else's,
      the reply is the same 404 and nothing changes. */
  method EditNote(db: Store, caller: int, noteid: int, title: Option<string>, content: Option<string>,
                  status: Status, now: int) returns (r: Response<string>)
    requires db.Valid()
    modifies db
    ensures db.Valid()
    ensures db.users == old(db.users)
    ensures r == Err(NOT_FOUND, NoteNotFoundOrUnauthorized) <==>
              !exists n :: n in old(db.notes) && OwnedBy(n, noteid, caller)
    ensures r == Err(SERVER_ERROR, NoteUpdateFailed) <==>
              (exists n :: n in old(db.notes) && OwnedBy(n, noteid, caller)) && (title.None? || content.None?)
    ensures r.Ok? <==>
              (exists n :: n in old(db.notes) && OwnedBy(n, noteid, caller)) && title.Some? && content.Some?
    ensures r.Err? ==> db.notes == old(db.notes)
    ensures r.Ok? ==> (
              && r == Ok(OK, NoteUpdated) && title.Some? && content.Some?
              && db.notes == EditRows(old(db.notes), noteid, caller, title.value, content.value, status, now))
  {
    var before := db.notes;
    var res := db.UpdateNotes(noteid, caller, title, content, status, now);
    if res.Rejected? {
      return Err(SERVER_ERROR, NoteUpdateFailed);
    }
    var matched := Filter(before, (n: Note) => OwnedBy(n, noteid, caller));
    if res.rows == 0 {
      assert forall n :: n in before ==> !OwnedBy(n, noteid, caller);
      return Err(NOT_FOUND, NoteNotFoundOrUnauthorized);
    }
    assert matched[0] in before && OwnedBy(matched[0], noteid, caller);
    r := Ok(OK, NoteUpdated);
  }

  /** deleteNote: exactly the rows with this id AND the caller as owner go; a missing note
      and someone else's note both give the same 404 and leave every row in place. */
  method DeleteNote(db: Store, caller: int, noteid: int) returns (r: Response<string>)
    requires db.Valid()
    modifies db
    ensures db.Valid()
    ensures db.users == old(db.users)
    ensures r == Err(NOT_FOUND, NoteNotFoundOrUnauthorized) <==>
              !exists n :: n in old(db.notes) && OwnedBy(n, noteid, caller)
    ensures r.Err? ==> db.notes == old(db.notes)
    ensures r.Ok? ==> r == Ok(OK, NoteDeleted)
    ensures db.notes == RemainingAfterDelete(old(db.notes), noteid, caller)
    ensures forall n :: n in db.notes <==> n in old(db.notes) && !OwnedBy(n, noteid, caller)
  {
    var before := db.notes;
    var res := db.DeleteNotes(noteid, caller);
    var matched := Filter(before, (n: Note) => OwnedBy(n, noteid, caller));
    FilterPartition(before, (n: Note) => OwnedBy(n, noteid, caller), (n: Note) => !OwnedBy(n, noteid, caller));
    if res.rows == 0 {
      assert matched == [];
      FilterKeepsAll(before, (n: Note) => !OwnedBy(n, noteid, caller));
      return Err(NOT_FOUND, NoteNotFoundOrUnauthorized);
    }
    assert matched[0] in before && OwnedBy(matched[0], noteid, caller);
    r := Ok(OK, NoteDeleted);
  }

  /** With unique note ids, a successful delete removes exactly one row. */
  lemma DeleteRemovesOne(notes: seq<Note>, noteid: int, caller: int)
    requires DistinctBy(notes, NoteId)
    requires exists n :: n in notes && OwnedBy(n, noteid, caller)
    ensures |RemainingAfterDelete(notes, noteid, caller)| == |notes| - 1
  {
    FilterPartition(notes, (n: Note) => OwnedBy(n, noteid, caller), (n: Note) => !OwnedBy(n, noteid, caller));
    FilterKeyAtMostOne(notes, NoteId, noteid, (n: Note) => OwnedBy(n, noteid, caller));
    var n :| n in notes && OwnedBy(n, noteid, caller);
    assert n in Filter(notes, (n: Note) => OwnedBy(n, noteid, caller));
  }
}
