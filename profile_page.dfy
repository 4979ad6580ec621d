/** The profile page's own logic: turning the edited avatar's data URL into the bytes of the
    uploaded file, the note list after a delete, the expanded-note toggle, and the username
    error shown while editing. */
module ProfilePage {
  import opened Common
  import opened Schema
  import opened NoteController
  import opened UserController

  // ---------------------------------------------------------------------------
  // String.prototype.split with a one-character separator
  // ---------------------------------------------------------------------------

  /** The inverse of split: the parts with the separator between consecutive ones. */
  function Join(parts: seq<string>, sep: char): string
    requires |parts| >= 1
  {
    if |parts| == 1 then parts[0] else parts[0] + [sep] + Join(parts[1..], sep)
  }

  /** The number of occurrences of `c` in `s`. */
  function Occurrences(s: string, c: char): nat {
    if s == [] then 0 else (if s[0] == c then 1 else 0) + Occurrences(s[1..], c)
  }

  /** `s.split(sep)`: the maximal separator-free pieces, one more than there are separators. */
  function Split(s: string, sep: char): (parts: seq<string>)
    ensures |parts| == Occurrences(s, sep) + 1
    ensures forall k :: 0 <= k < |parts| ==> sep !in parts[k]
    ensures Join(parts, sep) == s
  {
    if s == [] then [[]]
    else
      var rest := Split(s[1..], sep);
      if s[0] == sep then
        [[]] + rest
      else
        var head := [s[0]] + rest[0];
        assert sep !in head;
        JoinExtendHead(s[0], rest, sep);
        [head] + rest[1..]
  }

  /** Prepending a character to the first part prepends it to the joined string. */
  lemma JoinExtendHead(c: char, parts: seq<string>, sep: char)
    requires |parts| >= 1
    ensures Join([[c] + parts[0]] + parts[1..], sep) == [c] + Join(parts, sep)
  {
    var extended := [[c] + parts[0]] + parts[1..];
    assert extended[1..] == parts[1..];
  }

  /** Splitting a joined list of separator-free parts gives back the parts. */
  lemma {:induction false} SplitJoin(parts: seq<string>, sep: char)
    requires |parts| >= 1
    requires forall k :: 0 <= k < |parts| ==> sep !in parts[k]
    ensures Split(Join(parts, sep), sep) == parts
  {
    if |parts| == 1 {
      SplitPiece(parts[0], sep);
    } else {
      SplitJoin(parts[1..], sep);
      SplitCons(parts[0], Join(parts[1..], sep), sep);
    }
  }

  /** A separator-free string is a single piece. */
  lemma {:induction false} SplitPiece(s: string, sep: char)
    requires sep !in s
    ensures Split(s, sep) == [s]
  {
    if s != [] {
      SplitPiece(s[1..], sep);
    }
  }

  /** A separator-free piece followed by the separator becomes its own first part. */
  lemma {:induction false} SplitCons(piece: string, rest: string, sep: char)
    requires sep !in piece
    ensures Split(piece + [sep] + rest, sep) == [piece] + Split(rest, sep)
  {
    var s := piece + [sep] + rest;
    if piece == [] {
      assert s[1..] == rest;
    } else {
      assert s[0] == piece[0] && s[1..] == piece[1..] + [sep] + rest;
      SplitCons(piece[1..], rest, sep);
      assert [piece[0]] + piece[1..] == piece;
    }
  }

  // ---------------------------------------------------------------------------
  // The chunking loop of handleProfileUpdate
  // ---------------------------------------------------------------------------

  const ChunkSize: nat := 1024

  /** A Uint8Array element: ToUint8, the number modulo 2^8. */
  function Uint8(x: int): (b: int)
    ensures 0 <= b < 256
    ensures 0 <= x < 256 ==> b == x
  {
    x % 256
  }

  /** `new Uint8Array(numbers)`. */
  function ToUint8Array(numbers: seq<int>): (bytes: seq<int>)
    ensures |bytes| == |numbers|
    ensures forall i :: 0 <= i < |numbers| ==> bytes[i] == Uint8(numbers[i])
  {
    seq(|numbers|, i requires 0 <= i < |numbers| => Uint8(numbers[i]))
  }

  /** The byte each character of the decoded string stands for, in order. */
  function Codes(s: string): (codes: seq<int>)
    ensures |codes| == |s|
    ensures forall i :: 0 <= i < |s| ==> codes[i] == Uint8(s[i] as int)
  {
    seq(|s|, i requires 0 <= i < |s| => Uint8(s[i] as int))
  }

  /** The chunks laid end to end, as the Blob constructor concatenates its parts. */
  function Flatten(chunks: seq<seq<int>>): seq<int> {
    if chunks == [] then [] else Flatten(chunks[..|chunks| - 1]) + chunks[|chunks| - 1]
  }

  /** ceil(n / ChunkSize). */
  function ChunkCount(n: nat): nat {
    (n + ChunkSize - 1) / ChunkSize
  }

  /** `chunks` are the first slices of `s`, covering exactly its first `covered` characters:
      each holds the bytes of the characters at its offset, and all but the last are full. */
  ghost predicate ChunksOf(s: string, chunks: seq<seq<int>>, covered: nat) {
    && (forall j :: 0 <= j < |chunks| ==> 0 < |chunks[j]| <= ChunkSize)
    && (forall j :: 0 <= j < |chunks| - 1 ==> |chunks[j]| == ChunkSize)
    && (forall j :: 0 <= j < |chunks| ==> j * ChunkSize + |chunks[j]| <= |s|)
    && (forall j, i :: 0 <= j < |chunks| && 0 <= i < |chunks[j]| ==>
          chunks[j][i] == Uint8(s[j * ChunkSize + i] as int))
    && covered <= |s|
    && Flatten(chunks) == Codes(s[..covered])
  }

  /** One turn of the loop: the slice at a full-chunk boundary extends the cover to its end. */
  lemma ChunkStep(s: string, chunks: seq<seq<int>>, offset: nat, end: nat)
    requires offset == |chunks| * ChunkSize && offset < end <= |s| && end <= offset + ChunkSize
    requires ChunksOf(s, chunks, offset)
    requires forall j :: 0 <= j < |chunks| ==> |chunks[j]| == ChunkSize
    ensures ChunksOf(s, chunks + [Codes(s[offset..end])], end)
  {
    var chunk := Codes(s[offset..end]);
    var next := chunks + [chunk];
    CodesSplit(s, offset, end);
    assert next[..|next| - 1] == chunks;
    forall j, i | 0 <= j < |next| && 0 <= i < |next[j]|
      ensures next[j][i] == Uint8(s[j * ChunkSize + i] as int)
    {
      if j == |chunks| {
        assert next[j][i] == Codes(s[offset..end])[i];
      } else {
        assert next[j] == chunks[j];
      }
    }
  }

  /** Copying a slice into `new Array(slice.length)` of char codes and wrapping it in a
      Uint8Array gives the slice's bytes. */
  method SliceBytes(slice: string) returns (bytes: seq<int>)
    ensures bytes == Codes(slice)
  {
    var byteNumbers := new int[|slice|];
    for i := 0 to |slice|
      invariant forall k :: 0 <= k < i ==> byteNumbers[k] == slice[k] as int
    {
      byteNumbers[i] := slice[i] as int;
    }
    bytes := ToUint8Array(byteNumbers[..]);
  }

  /** The loop of handleProfileUpdate: slices of 1024 characters from offset 0, each copied
      into an array of char codes and pushed as a Uint8Array. */
  method SliceIntoChunks(byteCharacters: string) returns (byteArrays: seq<seq<int>>)
    ensures |byteArrays| == ChunkCount(|byteCharacters|)
    ensures forall j :: 0 <= j < |byteArrays| ==> 0 < |byteArrays[j]| <= ChunkSize
    ensures forall j :: 0 <= j < |byteArrays| - 1 ==> |byteArrays[j]| == ChunkSize
    ensures forall j :: 0 <= j < |byteArrays| ==> j * ChunkSize + |byteArrays[j]| <= |byteCharacters|
    ensures forall j, i :: 0 <= j < |byteArrays| && 0 <= i < |byteArrays[j]| ==>
              byteArrays[j][i] == Uint8(byteCharacters[j * ChunkSize + i] as int)
    ensures Flatten(byteArrays) == Codes(byteCharacters)
  {
    var n := |byteCharacters|;
    byteArrays := [];
    var offset := 0;
    while offset < n
      invariant offset == |byteArrays| * ChunkSize && offset < n + ChunkSize
      invariant ChunksOf(byteCharacters, byteArrays, if offset <= n then offset else n)
      invariant offset <= n ==> forall j :: 0 <= j < |byteArrays| ==> |byteArrays[j]| == ChunkSize
      decreases n - offset
    {
      var end := if offset + ChunkSize <= n then offset + ChunkSize else n;
      var slice := byteCharacters[offset..end];
      var chunk := SliceBytes(slice);
      ChunkStep(byteCharacters, byteArrays, offset, end);
      byteArrays := byteArrays + [chunk];
      offset := offset + ChunkSize;
    }
    assert byteCharacters[..n] == byteCharacters;
    CountIsCeiling(n, |byteArrays|);
  }

  /** The codes of a prefix followed by the codes of the next slice are the codes of the
      longer prefix. */
  lemma CodesSplit(s: string, a: nat, b: nat)
    requires a <= b <= |s|
    ensures Codes(s[..a]) + Codes(s[a..b]) == Codes(s[..b])
  {
    var left := Codes(s[..a]) + Codes(s[a..b]);
    forall i | 0 <= i < b ensures left[i] == Codes(s[..b])[i] {
      if i < a {
        assert left[i] == Codes(s[..a])[i];
      } else {
        assert left[i] == Codes(s[a..b])[i - a];
      }
    }
  }

  /** The loop stops at the least multiple of the chunk size that reaches the length. */
  lemma CountIsCeiling(n: nat, count: nat)
    requires n <= count * ChunkSize
    requires count == 0 || (count - 1) * ChunkSize < n
    ensures count == ChunkCount(n)
  {
    if count > 0 {
      assert count * ChunkSize - ChunkSize < n;
    }
  }

  /** For the output of atob, whose characters are all below 256, the chunks hold exactly
      the decoded string: reading each byte back as a character gives the string again. */
  lemma ChunksReproduceDecodedString(byteCharacters: string, byteArrays: seq<seq<int>>)
    requires forall i :: 0 <= i < |byteCharacters| ==> byteCharacters[i] as int < 256
    requires Flatten(byteArrays) == Codes(byteCharacters)
    ensures |Flatten(byteArrays)| == |byteCharacters|
    ensures forall i :: 0 <= i < |byteCharacters| ==> Flatten(byteArrays)[i] as char == byteCharacters[i]
  {
    forall i | 0 <= i < |byteCharacters| ensures Flatten(byteArrays)[i] as char == byteCharacters[i] {
      assert Flatten(byteArrays)[i] == byteCharacters[i] as int;
    }
  }

  // ---------------------------------------------------------------------------
  // handleProfileUpdate, up to the request
  // ---------------------------------------------------------------------------

  const DataUrlSeparator: char := ','
  const UpdateFailedMessage: string := "Profile update failed. Please try again."

  /** What handleProfileUpdate does before the request: abort while a username error is
      shown, fail (with the generic message) when atob rejects the payload, or send the form
      with the username, the bio and, for a two-part data URL, the picture's bytes. */
  datatype SaveOutcome =
    | Aborted
    | DecodeFailed(message: string)
    | Sent(username: string, bio: string, picture: Option<seq<seq<int>>>)

  /** The data URL's payload when splitting at "," gives exactly the header and the data. */
  function PayloadOf(profilePicUrl: string): (payload: Option<string>)
    ensures payload.Some? <==> profilePicUrl != "" && Occurrences(profilePicUrl, DataUrlSeparator) == 1
    ensures payload.Some? ==> exists header :: profilePicUrl == header + [DataUrlSeparator] + payload.value
                                               && DataUrlSeparator !in header
  {
    if profilePicUrl == "" then None
    else
      var parts := Split(profilePicUrl, DataUrlSeparator);
      if |parts| == 2 then
        assert Join(parts[1..], DataUrlSeparator) == parts[1];
        Some(parts[1])
      else None
  }

  /** handleProfileUpdate up to the request; `atob` is the browser's decoder, None when it
      throws on a malformed payload. */
  method PrepareProfileSave(usernameError: Option<string>, username: string, bio: string,
                            profilePicUrl: string, atob: string -> Option<string>) returns (out: SaveOutcome)
    ensures out == Aborted <==> Truthy(usernameError)
    ensures out.DecodeFailed? <==>
              !Truthy(usernameError) && PayloadOf(profilePicUrl).Some? && atob(PayloadOf(profilePicUrl).value).None?
    ensures out.DecodeFailed? ==> out.message == UpdateFailedMessage
    ensures out.Sent? ==> out.username == username && out.bio == bio
    ensures out.Sent? ==> (out.picture.Some? <==> PayloadOf(profilePicUrl).Some?)
    ensures out.Sent? && out.picture.Some? ==> (
              && atob(PayloadOf(profilePicUrl).value).Some?
              && Flatten(out.picture.value) == Codes(atob(PayloadOf(profilePicUrl).value).value)
              && forall j :: 0 <= j < |out.picture.value| ==> 0 < |out.picture.value[j]| <= ChunkSize)
  {
    if Truthy(usernameError) {
      return Aborted;
    }
    var picture := None;
    var payload := PayloadOf(profilePicUrl);
    if payload.Some? {
      var byteCharacters := atob(payload.value);
      if byteCharacters.None? {
        return DecodeFailed(UpdateFailedMessage);
      }
      var byteArrays := SliceIntoChunks(byteCharacters.value);
      picture := Some(byteArrays);
    }
    out := Sent(username, bio, picture);
  }

  /** The message shown when the request fails: the server's `msg` when it sent a non-empty
      one, otherwise the generic text. */
  function FailureMessage(serverMsg: Option<string>): (m: string)
    ensures m != ""
    ensures Truthy(serverMsg) ==> m == serverMsg.value
    ensures !Truthy(serverMsg) ==> m == UpdateFailedMessage
  {
    if Truthy(serverMsg) then serverMsg.value else UpdateFailedMessage
  }

  // ---------------------------------------------------------------------------
  // handleDelete and toggleNoteExpansion
  // ---------------------------------------------------------------------------

  /** `prevNotes.filter((note) => note.id !== noteId)`. */
  function RemoveNote(notes: seq<Note>, noteId: int): (r: seq<Note>)
    ensures forall n :: n in r <==> n in notes && n.id != noteId
  {
    Filter(notes, (n: Note) => n.id != noteId)
  }

  /** The list is filtered in place of each note: the kept notes keep their order, those
      before the deleted one staying before those after it. */
  lemma RemoveNoteKeepsOrder(before: seq<Note>, deleted: Note, after: seq<Note>)
    requires forall i :: 0 <= i < |before| ==> before[i].id != deleted.id
    requires forall i :: 0 <= i < |after| ==> after[i].id != deleted.id
    ensures RemoveNote(before + [deleted] + after, deleted.id) == before + after
  {
    var id := deleted.id;
    FilterAppend(before + [deleted], after, (n: Note) => n.id != id);
    FilterAppend(before, [deleted], (n: Note) => n.id != id);
    FilterRejectsAll([deleted], (n: Note) => n.id != id);
    FilterKeepsAll(before, (n: Note) => n.id != id);
    FilterKeepsAll(after, (n: Note) => n.id != id);
    assert before + [] == before;
  }

  /** After a delete the server accepts, the page's list is what listing the owner's notes
      afresh would give: filtering the owner's notes by id on the client commutes with the
      DELETE on the server. */
  lemma RemoveNoteMatchesServerDelete(notes: seq<Note>, caller: int, noteId: int)
    ensures RemoveNote(OwnedNotes(notes, caller), noteId)
              == OwnedNotes(RemainingAfterDelete(notes, noteId, caller), caller)
  {
    FilterFilter(notes, (n: Note) => n.userId == caller, (n: Note) => n.id != noteId,
                 (n: Note) => n.userId == caller && n.id != noteId);
    FilterFilter(notes, (n: Note) => !OwnedBy(n, noteId, caller), (n: Note) => n.userId == caller,
                 (n: Note) => n.userId == caller && n.id != noteId);
  }

  /** `prevId === noteId ? null : noteId`. */
  function ToggleExpansion(prevId: Option<int>, noteId: int): (next: Option<int>)
    ensures next == None <==> prevId == Some(noteId)
    ensures next.Some? ==> next.value == noteId
  {
    if prevId == Some(noteId) then None else Some(noteId)
  }

  /** Clicking the same note twice restores the expanded note if it was this one, and
      collapses everything otherwise. */
  lemma ToggleTwice(prevId: Option<int>, noteId: int)
    ensures ToggleExpansion(ToggleExpansion(prevId, noteId), noteId)
              == (if prevId == Some(noteId) then prevId else None)
  {
  }

  // ---------------------------------------------------------------------------
  // The username availability check
  // ---------------------------------------------------------------------------

  const UsernameTakenMessage: string := "Username is already taken"

  /** What the availability request produced: the server's `exists`, or a failed request. */
  datatype CheckReply = Answered(exists_: bool) | RequestFailed

  /** The username error after a check of `candidate`: cleared for an empty name or the
      user's own name (no request is made), set exactly when the server says the name exists,
      and left as it was when the request fails. */
  function NextUsernameError(prev: Option<string>, candidate: string, current: string,
                             reply: CheckReply): (err: Option<string>)
    ensures candidate == "" || candidate == current ==> err == None
    ensures candidate != "" && candidate != current && reply.Answered? ==>
              (err.Some? <==> reply.exists_) && (err.Some? ==> err.value == UsernameTakenMessage)
    ensures candidate != "" && candidate != current && reply.RequestFailed? ==> err == prev
  {
    if candidate == "" then None
    else if candidate == current then None
    else match reply
      case Answered(exists_) => if exists_ then Some(UsernameTakenMessage) else None
      case RequestFailed => prev
  }

  /** A name the availability request carries to the server unchanged. The name is put into
      the URL path without encoding, so the URL parser and the router alter some names: `/`
      and a backslash split the path, `?` and `#` cut it short, `%` starts an escape the router
      decodes, tab, line feed and carriage return are dropped, trailing spaces and control
      characters are stripped, and the segments `.` and `..` are resolved away. */
  predicate ReachesServerUnchanged(name: string) {
    && name != "." && name != ".."
    && (forall i :: 0 <= i < |name| ==> name[i] !in "/\\?#%\U{0009}\U{000A}\U{000D}")
    && (|name| > 0 ==> name[|name| - 1] > ' ')
  }

  /** With the server's answer taken from the same table, the page blocks the save exactly
      for a new, non-empty name that some row already has; a name it lets through is one the
      UNIQUE constraint accepts if the table has not changed in between. */
  lemma UsernameErrorMatchesTable(users: seq<User>, prev: Option<string>, candidate: string,
                                  current: string, callerId: int)
    requires candidate != "" && candidate != current && ReachesServerUnchanged(candidate)
    ensures var err := NextUsernameError(prev, candidate, current, Answered(ExistUsername(users, candidate)));
            && (Truthy(err) <==> UsernameTaken(users, candidate))
            && (err == None ==> !UsernameHeldByOther(users, callerId, candidate))
  {
    var err := NextUsernameError(prev, candidate, current, Answered(ExistUsername(users, candidate)));
    if err == None {
      assert !UsernameTaken(users, candidate);
    }
  }
}
