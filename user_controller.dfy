/** The profile handlers: reading the signed-in user, the username availability check, and
    the profile update with its avatar replacement. */
module UserController {
  import opened Common
  import opened Schema
  import opened AuthController

  /** The columns of `SELECT id, username, email, bio, profilePicUrl FROM User`. */
  datatype PublicUser = PublicUser(id: int, username: string, email: string, bio: Option<string>,
                                   profilePicUrl: Option<string>)

  function PublicUserOf(u: User): PublicUser {
    PublicUser(u.id, u.username, u.email, u.bio, u.profilePicUrl)
  }

  /** What a profile request carries: the id of the verified token (None on the `/:id` route,
      which has no token check, so `req.user` is undefined) and the `:id` path parameter. */
  datatype UserRequest = UserRequest(tokenId: Option<int>, pathId: Option<int>)

  const UserNotFound: string := "User not found"
  const UserRetrievalFailed: string := "Server error during user retrieval"

  /** getUser: the row of the token's user, never the one the path names. Without a token
      `req.user.id` throws, and the handler answers 500. */
  function GetUser(users: seq<User>, req: UserRequest): (r: Response<PublicUser>)
    ensures r == Err(SERVER_ERROR, UserRetrievalFailed) <==> req.tokenId.None?
    ensures r == Err(NOT_FOUND, UserNotFound) <==> req.tokenId.Some? && !HasUser(users, req.tokenId.value)
    ensures r.Ok? ==> (
              && req.tokenId.Some? && r.code == OK && r.body.id == req.tokenId.value
              && exists u :: u in users && u.id == req.tokenId.value && r.body == PublicUserOf(u))
  {
    match req.tokenId
    case None => Err(SERVER_ERROR, UserRetrievalFailed)
    case Some(id) =>
      match FindUser(users, id)
      case None => Err(NOT_FOUND, UserNotFound)
      case Some(user) => Ok(OK, PublicUserOf(user))
  }

  /** Two requests with the same token get the same reply, whatever their paths say. */
  lemma GetUserIgnoresPath(users: seq<User>, a: UserRequest, b: UserRequest)
    requires a.tokenId == b.tokenId && a.pathId != b.pathId
    ensures GetUser(users, a) == GetUser(users, b)
  {
    assert a == UserRequest(b.tokenId, a.pathId);
  }

  /** validate and getUser agree on whether the token's user still exists. */
  lemma ValidateAgreesWithGetUser(users: seq<User>, id: int)
    ensures Validate(users, id).isValid <==> GetUser(users, UserRequest(Some(id), None)).Ok?
  {
    var r := GetUser(users, UserRequest(Some(id), None));
    if r.Ok? {
      assert exists u :: u in users && u.id == id;
    }
  }

  /** existUsername: whether some row has exactly this username (`exists` in the reply). */
  function ExistUsername(users: seq<User>, username: string): (exists_: bool)
    ensures exists_ <==> UsernameTaken(users, username)
  {
    var rows := Filter(users, (u: User) => u.username == username);
    if |rows| > 0 then assert rows[0] in rows; true else false
  }

  // ---------------------------------------------------------------------------
  // updateUser
  // ---------------------------------------------------------------------------

  const UploadsPrefix: string := "/uploads/"

  const UsernameRequired: string := "Please provide a username"
  const ProfileUpdateFailed: string := "Server error during profile update"
  const ProfileUpdated: string := "Profile updated successfully"

  /** The body of a successful update: the message, the new token's claims and `user`. */
  datatype UpdatedProfile = UpdatedProfile(msg: string, token: Claims, user: Claims)

  /** The avatar the update stores: the uploaded file's path when there is an upload,
      otherwise the token's (possibly stale, possibly null) profilePicUrl. */
  function NewAvatar(tokenPic: Option<string>, upload: Option<string>): (url: Option<string>)
    ensures upload.None? ==> url == tokenPic
    ensures upload.Some? ==> url.Some? && |url.value| == |UploadsPrefix| + |upload.value|
                             && url.value[..|UploadsPrefix|] == UploadsPrefix
                             && url.value[|UploadsPrefix|..] == upload.value
  {
    if upload.Some? then Some(UploadsPrefix + upload.value) else tokenPic
  }

  /** updateUser, for the caller whose token claims are `caller` and an optional uploaded
      file name. It returns the reply and the old avatar it schedules for deletion; the
      deletion is decided before, and independently of, the username check. */
  method UpdateUser(db: Store, caller: Claims, username: Option<string>, bio: Option<string>,
                    upload: Option<string>) returns (r: Response<UpdatedProfile>, unlink: Option<string>)
    requires db.Valid()
    modifies db
    ensures db.Valid()
    ensures db.notes == old(db.notes)
    ensures unlink == (if upload.Some? && Truthy(caller.profilePicUrl) then caller.profilePicUrl else None)
    ensures r == Err(BAD_REQUEST, UsernameRequired) <==> !Truthy(username)
    ensures r == Err(SERVER_ERROR, ProfileUpdateFailed) <==>
              Truthy(username) &&
              (!HasUser(old(db.users), caller.id) || UsernameHeldByOther(old(db.users), caller.id, username.value))
    ensures r.Ok? <==>
              Truthy(username) && HasUser(old(db.users), caller.id) &&
              !UsernameHeldByOther(old(db.users), caller.id, username.value)
    ensures r.Err? ==> db.users == old(db.users)
    ensures r.Ok? ==> (
              && Truthy(username) && HasUser(old(db.users), caller.id)
              && db.users == RenameUser(old(db.users), caller.id, username.value, bio,
                                        NewAvatar(caller.profilePicUrl, upload))
              && r.code == OK && r.body.msg == ProfileUpdated && r.body.user == r.body.token
              && exists u :: u in old(db.users) && u.id == caller.id
                             && r.body.token == ClaimsOf(u.(username := username.value, bio := bio,
                                                             profilePicUrl := NewAvatar(caller.profilePicUrl, upload))))
  {
    var profilePicUrl := caller.profilePicUrl;
    unlink := None;
    if upload.Some? {
      profilePicUrl := Some(UploadsPrefix + upload.value);
      if Truthy(caller.profilePicUrl) {
        unlink := caller.profilePicUrl;
      }
    }
    if !Truthy(username) {
      return Err(BAD_REQUEST, UsernameRequired), unlink;
    }
    var before := db.users;
    var res := db.UpdateUserRow(caller.id, username.value, bio, profilePicUrl);
    if res.Rejected? {
      return Err(SERVER_ERROR, ProfileUpdateFailed), unlink;
    }
    match FindUser(db.users, caller.id)
    case None =>
      RenamedRowsKeepIds(before, caller.id, username.value, bio, profilePicUrl);
      r := Err(SERVER_ERROR, ProfileUpdateFailed);
    case Some(user) =>
      RenamedRowsKeepIds(before, caller.id, username.value, bio, profilePicUrl);
      var k :| 0 <= k < |db.users| && db.users[k] == user;
      var old_ := before[k];
      assert old_.id == caller.id;
      assert user == old_.(username := username.value, bio := bio, profilePicUrl := profilePicUrl);
      assert old_ in before;
      var token := ClaimsOf(user);
      r := Ok(OK, UpdatedProfile(ProfileUpdated, token, ClaimsOf(user)));
  }

  /** The renamed table has a row with an id exactly when the old one had, and the row with
      the renamed id is the old row with the three columns replaced. */
  lemma RenamedRowsKeepIds(users: seq<User>, id: int, username: string, bio: Option<string>,
                           profilePicUrl: Option<string>)
    ensures HasUser(RenameUser(users, id, username, bio, profilePicUrl), id) <==> HasUser(users, id)
    ensures !HasUser(users, id) ==> RenameUser(users, id, username, bio, profilePicUrl) == users
    ensures forall k :: 0 <= k < |users| ==>
              (RenameUser(users, id, username, bio, profilePicUrl)[k].id == id <==> users[k].id == id)
    ensures forall k :: 0 <= k < |users| && users[k].id == id ==>
              RenameUser(users, id, username, bio, profilePicUrl)[k]
                == users[k].(username := username, bio := bio, profilePicUrl := profilePicUrl)
  {
    var r := RenameUser(users, id, username, bio, profilePicUrl);
    if HasUser(users, id) {
      var u :| u in users && u.id == id;
      var k :| 0 <= k < |users| && users[k] == u;
      assert r[k] in r;
    }
    if HasUser(r, id) {
      var u :| u in r && u.id == id;
      var k :| 0 <= k < |r| && r[k] == u;
      assert users[k] in users;
    }
    if !HasUser(users, id) {
      forall k | 0 <= k < |users| ensures r[k] == users[k] {
        assert users[k] in users;
      }
    }
  }
}
