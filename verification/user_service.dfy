/**
 * The summarization service's users: the domain `User` with its defaults and
 * `rename`, and `UserService`, which normalises identifiers and lists,
 * creates and deletes users (a deletion takes the user's sessions with it).
 */
module UserService {
  import opened Wrappers
  import opened Strings
  import opened Http
  import SessionService

  /** The domain user. */
  datatype User = User(userId: string, displayName: string, insertedAt: int)

  /**
   * `User(user_id, display_name, inserted_at)`: an absent or empty display
   * name falls back to the id, an absent or zero creation time to now.
   */
  function NewUser(userId: string, displayName: Option<string>, insertedAt: Option<int>, now: int): (u: User)
    ensures u.userId == userId
    ensures displayName.Some? && displayName.value != "" ==> u.displayName == displayName.value
    ensures displayName.None? || displayName.value == "" ==> u.displayName == userId
    ensures insertedAt.Some? && insertedAt.value != 0 ==> u.insertedAt == insertedAt.value
    ensures insertedAt.None? || insertedAt.value == 0 ==> u.insertedAt == now
  {
    User(userId,
         if displayName.Some? && displayName.value != "" then displayName.value else userId,
         if insertedAt.Some? && insertedAt.value != 0 then insertedAt.value else now)
  }

  /** `User.rename`: the stripped name, unless it is blank. */
  function Rename(u: User, displayName: string): (r: User)
    ensures r.userId == u.userId && r.insertedAt == u.insertedAt
    ensures IsBlank(displayName) ==> r == u
    ensures !IsBlank(displayName) ==> r.displayName != "" && IsStripped(r.displayName)
  {
    var cleaned := Strip(displayName);
    if cleaned != "" then u.(displayName := cleaned) else u
  }

  /** Renaming twice with the same name is renaming once, and padding the name changes nothing. */
  lemma RenameIdempotent(u: User, displayName: string)
    ensures Rename(Rename(u, displayName), displayName) == Rename(u, displayName)
    ensures Rename(u, Strip(displayName)) == Rename(u, displayName)
  {
    StripIdempotent(displayName);
  }

  const MissingIdentifier := HttpError(BadRequest, "Не указан идентификатор пользователя")
  const InvalidIdentifier := HttpError(BadRequest, "Некорректный идентификатор пользователя")
  const UserExists := HttpError(Conflict, "Пользователь уже существует")
  const UserNotFound := HttpError(NotFound, "Пользователь не найден")

  /** `_normalize_identifier`: a missing or empty id and a blank one are refused; otherwise the stripped id. */
  function NormalizeIdentifier(userId: Option<string>): (r: Result<string, HttpError>)
    ensures r == Err(MissingIdentifier) <==> userId.None? || userId.value == ""
    ensures r == Err(InvalidIdentifier) <==> userId.Some? && userId.value != "" && IsBlank(userId.value)
    ensures r.Ok? ==> r.value != "" && IsStripped(r.value)
  {
    if userId.None? || userId.value == "" then Err(MissingIdentifier)
    else
      var normalized := Strip(userId.value);
      if normalized == "" then Err(InvalidIdentifier) else Ok(normalized)
  }

  /** A normalised id normalises to itself, and padding an id does not change what it normalises to. */
  lemma NormalizeIdempotent(userId: string)
    ensures NormalizeIdentifier(Some(userId)).Ok? ==>
              NormalizeIdentifier(Some(NormalizeIdentifier(Some(userId)).value)) == NormalizeIdentifier(Some(userId))
    ensures !IsBlank(userId) ==> NormalizeIdentifier(Some(Strip(userId))) == NormalizeIdentifier(Some(userId))
  {
    StripIdempotent(userId);
  }

  /** The users, by id. */
  type Users = map<string, User>

  /** `list_users`: the serialised users (id, display name, creation time); the repository's order is not modelled. */
  function ListUsers(users: Users): (r: set<User>)
    ensures forall id :: id in users ==> users[id] in r
    ensures forall u :: u in r ==> exists id :: id in users && users[id] == u
  {
    set id | id in users :: users[id]
  }

  /** `create_user`: refuses a bad id and a taken one; otherwise stores a new user created now. */
  function CreateUser(users: Users, userId: Option<string>, displayName: Option<string>, now: int)
    : (r: Result<(Users, User), HttpError>)
  {
    var id :- NormalizeIdentifier(userId);
    if id in users then Err(UserExists)
    else
      var u := NewUser(id, displayName, None, now);
      Ok((users[id := u], u))
  }

  /**
   * A creation is refused for exactly the bad and the taken ids; a new user is
   * stored under its normalised id, created now, and listed; nobody else
   * changes; and creating the same id again is refused.
   */
  lemma CreateUserSpec(users: Users, userId: Option<string>, displayName: Option<string>, now: int,
                       displayName': Option<string>, now': int)
    ensures var r := CreateUser(users, userId, displayName, now);
      var n := NormalizeIdentifier(userId);
      && (n.Err? ==> r == Err(n.error))
      && (n.Ok? ==> (r == Err(UserExists) <==> n.value in users))
      && (r.Ok? ==>
            var (after, u) := r.value;
            && u.userId == n.value && u.insertedAt == now
            && after.Keys == users.Keys + {u.userId} && after[u.userId] == u
            && (forall id :: id in users ==> after[id] == users[id])
            && ListUsers(after) == ListUsers(users) + {u}
            && CreateUser(after, userId, displayName', now') == Err(UserExists))
  {
    var r := CreateUser(users, userId, displayName, now);
    if r.Ok? {
      var (after, u) := r.value;
      assert after.Keys == users.Keys + {u.userId};
    }
  }

  /** `delete_user`: refuses a bad id and an unknown user; otherwise removes the user's sessions, then the user. */
  function DeleteUser(users: Users, store: SessionService.Store, userId: Option<string>)
    : (r: Result<(Users, SessionService.Store), HttpError>)
  {
    var id :- NormalizeIdentifier(userId);
    if id !in users then Err(UserNotFound)
    else Ok((users - {id}, SessionService.Others(store, id)))
  }

  /**
   * A deletion is refused for exactly the bad ids and the unknown users;
   * otherwise the user and every session it owned are gone while every other
   * user and every other owner's session stays; and deleting a user just
   * created restores the users.
   */
  lemma DeleteUserSpec(users: Users, store: SessionService.Store, userId: Option<string>, displayName: Option<string>, now: int)
    ensures var r := DeleteUser(users, store, userId);
      var n := NormalizeIdentifier(userId);
      && (n.Err? ==> r == Err(n.error))
      && (n.Ok? ==> (r == Err(UserNotFound) <==> n.value !in users))
      && (r.Ok? ==>
            var (after, sessions) := r.value;
            && after.Keys == users.Keys - {n.value}
            && (forall id :: id in after ==> after[id] == users[id])
            && (forall s :: s in sessions <==> s in store && s.userId != n.value))
    ensures CreateUser(users, userId, displayName, now).Ok? ==>
              DeleteUser(CreateUser(users, userId, displayName, now).value.0, store, userId)
                == Ok((users, SessionService.Others(store, NormalizeIdentifier(userId).value)))
  {
    var c := CreateUser(users, userId, displayName, now);
    if c.Ok? {
      assert c.value.0 - {NormalizeIdentifier(userId).value} == users;
    }
  }
}
