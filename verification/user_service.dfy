/**
 * The user service (`user.service.UserServiceImpl`): listing, looking up and
 * patching users. A patch replaces the fields it carries and keeps the ones
 * it leaves null.
 */
module UserService {
  import opened Wrappers
  import opened Domain
  import Store

  /** `UserMapper.toUserDto`: every field of the user, none left null. */
  function ToUserDto(u: User): (d: UserDto)
    ensures d.name.Some? && d.email.Some?
  {
    UserDto(u.id, Some(u.name), Some(u.email))
  }

  // ------------------------------------------------------------ listing

  /**
   * `getAllUsers`: one reply per stored user, in store order, so the ids are
   * strictly increasing and every stored user appears once.
   */
  function GetAllUsers(db: Db): (r: seq<UserDto>)
    requires Consistent(db)
    ensures |r| == |db.users|
    ensures forall i :: 0 <= i < |r| ==> r[i].id in db.users && r[i] == ToUserDto(db.users[r[i].id])
    ensures forall i, j :: 0 <= i < j < |r| ==> r[i].id < r[j].id
    ensures forall k :: k in db.users ==> ToUserDto(db.users[k]) in r
  {
    var r := UserDtos(Store.Rows(db.users));
    ListingFollowsKeys(db, r);
    ListingIsComplete(db, r);
    r
  }

  /** One reply per user, in order. */
  function UserDtos(us: seq<User>): (r: seq<UserDto>)
    ensures |r| == |us|
    ensures forall i :: 0 <= i < |us| ==> r[i] == ToUserDto(us[i])
  {
    seq(|us|, i requires 0 <= i < |us| => ToUserDto(us[i]))
  }

  /** The `i`-th reply of the listing is the user stored under the `i`-th key. */
  lemma ListingFollowsKeys(db: Db, r: seq<UserDto>)
    requires Consistent(db)
    requires |r| == |Store.Rows(db.users)|
    requires forall i :: 0 <= i < |r| ==> r[i] == ToUserDto(Store.Rows(db.users)[i])
    ensures forall i :: 0 <= i < |r| ==> r[i].id == Store.AscendingKeys(db.users.Keys)[i]
                                         && r[i].id in db.users && r[i] == ToUserDto(db.users[r[i].id])
    ensures forall i, j :: 0 <= i < j < |r| ==> r[i].id < r[j].id
  {
    Store.RowsFollowKeys(db.users);
  }

  /** Every stored user has its reply in the listing. */
  lemma ListingIsComplete(db: Db, r: seq<UserDto>)
    requires Consistent(db)
    requires |r| == |Store.Rows(db.users)|
    requires forall i :: 0 <= i < |r| ==> r[i] == ToUserDto(Store.Rows(db.users)[i])
    ensures forall k :: k in db.users ==> ToUserDto(db.users[k]) in r
  {
    var keys := Store.AscendingKeys(db.users.Keys);
    Store.RowsFollowKeys(db.users);
    forall k | k in db.users
      ensures ToUserDto(db.users[k]) in r
    {
      var i := Store.IndexOf(keys, k);
      assert r[i] == ToUserDto(db.users[k]);
    }
  }

  // ------------------------------------------------------------- lookup

  /** `getUserById`: the stored user's reply, or UserNotFound. */
  function GetUserById(db: Db, id: int): (r: Result<UserDto>)
    requires Consistent(db)
    ensures r.Err? <==> id !in db.users
    ensures r.Err? ==> r.error == UserNotFound
    ensures r.Ok? ==> r.value.id == id && r.value.name == Some(db.users[id].name)
                      && r.value.email == Some(db.users[id].email)
  {
    if id !in db.users then Err(UserNotFound) else Ok(ToUserDto(db.users[id]))
  }

  /** A user reached through the listing is the one the lookup returns. */
  lemma ListedUserIsLookedUp(db: Db, i: int)
    requires Consistent(db) && 0 <= i < |GetAllUsers(db)|
    ensures GetUserById(db, GetAllUsers(db)[i].id) == Ok(GetAllUsers(db)[i])
  {
  }

  // -------------------------------------------------------------- patch

  /** A field of a patch: a null field keeps what was stored. */
  function Patch(field: Option<string>, stored: string): string {
    if field.Some? then field.value else stored
  }

  /**
   * `updateUser`: the patch is addressed by `userId`, whatever id the
   * request carries. An unknown user fails with UserNotFound and nothing is
   * saved; otherwise a non-null name or email replaces the stored one, a
   * null one keeps it, and the user keeps its id. No other row changes.
   */
  function UpdateUser(db: Db, d: UserDto, userId: int): (r: Result<Commit<UserDto>>)
    requires Consistent(db)
    ensures r.Err? <==> userId !in db.users
    ensures r.Err? ==> r.error == UserNotFound
    ensures r.Ok? ==> var db' := r.value.db;
                      && db' == db.(users := db'.users)
                      && db'.users.Keys == db.users.Keys
                      && (forall k :: k in db.users && k != userId ==> db'.users[k] == db.users[k])
                      && db'.users[userId].id == userId
                      && (d.name.Some? ==> db'.users[userId].name == d.name.value)
                      && (d.name.None? ==> db'.users[userId].name == db.users[userId].name)
                      && (d.email.Some? ==> db'.users[userId].email == d.email.value)
                      && (d.email.None? ==> db'.users[userId].email == db.users[userId].email)
                      && r.value.reply == ToUserDto(db'.users[userId])
  {
    if userId !in db.users then Err(UserNotFound)
    else
      var prev := db.users[userId];
      var saved := prev.(name := Patch(d.name, prev.name), email := Patch(d.email, prev.email));
      Ok(Commit(db.(users := db.users[prev.id := saved]), ToUserDto(saved)))
  }

  /** A patch keeps every row well-formed. */
  lemma UpdateUserKeepsConsistent(db: Db, d: UserDto, userId: int)
    requires Consistent(db) && UpdateUser(db, d, userId).Ok?
    ensures Consistent(UpdateUser(db, d, userId).value.db)
  {
    var db' := UpdateUser(db, d, userId).value.db;
    forall k | k in db'.bookings
      ensures BookingRowOk(db', k)
    {
      assert BookingRowOk(db, k);
    }
    forall k | k in db'.comments
      ensures CommentRowOk(db', k)
    {
      assert CommentRowOk(db, k);
    }
  }

  /** Sending the same patch twice leaves the same database and reply. */
  lemma UpdateUserIsIdempotent(db: Db, d: UserDto, userId: int)
    requires Consistent(db) && UpdateUser(db, d, userId).Ok?
    ensures var first := UpdateUser(db, d, userId).value;
            UpdateUser(first.db, d, userId) == Ok(first)
  {
    UpdateUserKeepsConsistent(db, d, userId);
    var first := UpdateUser(db, d, userId).value;
    var u := first.db.users[userId];
    assert u.(name := Patch(d.name, u.name), email := Patch(d.email, u.email)) == u;
    assert first.db.users[userId := u] == first.db.users;
  }

  /** A patch with neither name nor email changes nothing. */
  lemma EmptyPatchKeepsUser(db: Db, id: int, userId: int)
    requires Consistent(db) && userId in db.users
    ensures UpdateUser(db, UserDto(id, None, None), userId) == Ok(Commit(db, ToUserDto(db.users[userId])))
  {
    var db' := UpdateUser(db, UserDto(id, None, None), userId).value.db;
    assert db'.users == db.users;
  }

  /** After a patch the lookup returns what the patch replied. */
  lemma LookupAfterUpdate(db: Db, d: UserDto, userId: int)
    requires Consistent(db) && UpdateUser(db, d, userId).Ok?
    ensures var c := UpdateUser(db, d, userId).value;
            GetUserById(c.db, userId) == Ok(c.reply)
  {
    UpdateUserKeepsConsistent(db, d, userId);
  }
}
