/**
 * The user handlers of the translation service: listing users, registering a
 * user once, and deleting one. Deleting a user that does not exist raises in
 * the handler as written; `DeleteExistUser` is the intended behaviour, which
 * reports the miss instead.
 */
module ChatUsers {
  import opened Wrappers
  import opened ChatSessions

  /** The dictionary `get_user_list` returns for each user. */
  datatype UserView = UserView(userId: string, temporary: bool, startedUsingAt: int, lastUsedAt: int)

  function ViewOfUser(u: ChatUser): UserView {
    UserView(u.userId, u.temporary, u.startedUsingAt, u.lastUsedAt)
  }

  /** Each user is stored under its own id. */
  predicate WellKeyed(users: Users) {
    forall id :: id in users ==> users[id].userId == id
  }

  /** `get_user_list`: the views of the stored users (the repository's order is not modelled). */
  function GetUserList(users: Users): (r: set<UserView>)
    ensures forall id :: id in users ==> ViewOfUser(users[id]) in r
    ensures WellKeyed(users) ==> forall v :: v in r ==> v.userId in users && ViewOfUser(users[v.userId]) == v
  {
    set id | id in users :: ViewOfUser(users[id])
  }

  /** Every stored user is listed exactly once: the listed ids are the stored ids, one view each. */
  lemma {:induction false} GetUserListOnePerUser(users: Users)
    requires WellKeyed(users)
    ensures (set v | v in GetUserList(users) :: v.userId) == users.Keys
    ensures |GetUserList(users)| == |users|
    decreases |users|
  {
    if |users| > 0 {
      var id :| id in users;
      var rest := users - {id};
      assert |rest| == |users| - 1;
      GetUserListOnePerUser(rest);
      var v := ViewOfUser(users[id]);
      forall x | x in GetUserList(users)
        ensures x in GetUserList(rest) + {v}
      {
        var j :| j in users && x == ViewOfUser(users[j]);
        if j != id {
          assert j in rest && rest[j] == users[j];
        }
      }
      assert GetUserList(users) == GetUserList(rest) + {v};
      assert v !in GetUserList(rest);
    }
  }

  /** The statuses `create_new_user` reports. */
  datatype CreateStatus = Created | Exist

  function CreateWord(s: CreateStatus): string {
    match s
    case Created => "created"
    case Exist => "exist"
  }

  /**
   * `create_new_user`: a new user, started and last used now with no
   * sessions, unless the id is taken, in which case nothing changes.
   */
  function CreateNewUser(users: Users, userId: string, temporary: bool, now: int): (r: (Users, CreateStatus))
    ensures r.1 == Created <==> userId !in users
    ensures r.1 == Exist ==> r.0 == users
    ensures userId in r.0
    ensures r.1 == Created ==> r.0[userId].userId == userId && r.0[userId].temporary == temporary
    ensures r.1 == Created ==> r.0[userId].sessions == [] && r.0[userId].startedUsingAt == r.0[userId].lastUsedAt == now
    ensures OthersUnchanged(users, r.0, userId)
  {
    if userId !in users then (users[userId := ChatUser(userId, temporary, now, now, [])], Created)
    else (users, Exist)
  }

  /** Registering keeps the users well keyed and the new user is listed; a second registration changes nothing. */
  lemma CreateNewUserSpec(users: Users, userId: string, temporary: bool, now: int, temporary': bool, now': int)
    requires WellKeyed(users)
    ensures var (after, _) := CreateNewUser(users, userId, temporary, now);
      && WellKeyed(after)
      && GetUserList(after) == GetUserList(users) + {ViewOfUser(after[userId])}
      && CreateNewUser(after, userId, temporary', now') == (after, Exist)
  {
    var (after, _) := CreateNewUser(users, userId, temporary, now);
    assert after.Keys == users.Keys + {userId};
  }

  /** What escapes the handler as written when the user is absent. */
  datatype Raised = UnboundLocalError

  /** The statuses of a deletion: the source's word for success, and the intended report of a miss. */
  datatype DeleteStatus = Deleted | NotFound

  function DeleteWord(s: DeleteStatus): Option<string> {
    match s
    case Deleted => Some("deteted")
    case NotFound => None
  }

  /**
   * `delete_exist_user` as written: for an absent user the early `return`
   * inside `try` runs the `finally` block, whose `return status` reads a
   * variable that was never bound, so an `UnboundLocalError` escapes.
   */
  function DeleteExistUserAsWritten(users: Users, userId: string): (r: Result<(Users, DeleteStatus), Raised>)
    ensures r.Err? <==> userId !in users
    ensures r.Ok? ==> r.value == (users - {userId}, Deleted)
  {
    if userId !in users then Err(UnboundLocalError) else Ok((users - {userId}, Deleted))
  }

  /** With no users at all, deleting "u" raises instead of reporting a miss. */
  lemma DeleteUnknownUserRaises()
    ensures DeleteExistUserAsWritten(map[], "u") == Err(UnboundLocalError)
  {
  }

  /** `delete_exist_user` as intended: an absent user is reported, not raised. */
  function DeleteExistUser(users: Users, userId: string): (r: (Users, DeleteStatus))
    ensures r.1 == Deleted <==> userId in users
    ensures userId !in r.0 && r.0.Keys == users.Keys - {userId}
    ensures forall id :: id in r.0 ==> r.0[id] == users[id]
  {
    (users - {userId}, if userId in users then Deleted else NotFound)
  }

  /**
   * The intended handler agrees with the written one wherever the latter
   * returns; registering then deleting a new user restores the users; and a
   * second deletion reports the miss.
   */
  lemma DeleteExistUserSpec(users: Users, userId: string, temporary: bool, now: int)
    ensures userId in users ==> DeleteExistUserAsWritten(users, userId) == Ok(DeleteExistUser(users, userId))
    ensures userId !in users ==> DeleteExistUser(CreateNewUser(users, userId, temporary, now).0, userId) == (users, Deleted)
    ensures DeleteExistUser(DeleteExistUser(users, userId).0, userId).1 == NotFound
  {
    if userId !in users {
      var after := CreateNewUser(users, userId, temporary, now).0;
      assert after - {userId} == users;
    }
  }
}
