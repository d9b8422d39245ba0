/**
 * The session handlers of the translation service: users, each owning a list
 * of versioned translation sessions, and the handlers that list (trimming to
 * the cap), create, re-translate, rename, search and delete them. A handler
 * that raises returns no store: the unit of work discards what was not
 * committed.
 */
module ChatSessions {
  import opened Wrappers
  import opened Strings
  import opened Seqs
  import opened Sorting
  import opened Ranking
  import opened Similarity
  import opened ChatConfig
  import opened ChatProcessor

  /** A stored translation session. */
  datatype ChatSession = ChatSession(
    sessionId: string,
    title: string,
    model: string,
    query: string,
    translation: string,
    sourceLanguageId: string,
    targetLanguageId: string,
    sourceLanguageTitle: string,
    targetLanguageTitle: string,
    version: int,
    insertedAt: int,
    updatedAt: int)

  /** A user and its sessions, in insertion order (`Listed` gives the order `get_sessions()` returns). */
  datatype ChatUser = ChatUser(
    userId: string,
    temporary: bool,
    startedUsingAt: int,
    lastUsedAt: int,
    sessions: seq<ChatSession>)

  /** The users, by id. */
  type Users = map<string, ChatUser>

  /**
   * What a handler raises: `ModelNotFound` is the `ValueError` for an unknown
   * model id on create, `NoModel` and `SessionNotFound` the attribute errors of
   * reading a missing model or session, `VersionNotCorrect` the `ValueError` of
   * a stale version, and the two search refusals.
   */
  datatype ChatError = ModelNotFound | NoModel | SessionNotFound | VersionNotCorrect(version: int) | EmptyRequest | NoSessions

  /** The dictionary a handler returns; the title is absent from a re-translation for an unknown user. */
  datatype ChatView = ChatView(
    sessionId: string,
    title: Option<string>,
    model: string,
    query: string,
    translation: string,
    sourceLanguageId: string,
    targetLanguageId: string,
    sourceLanguageTitle: string,
    targetLanguageTitle: string,
    version: int,
    insertedAt: int,
    updatedAt: int,
    error: Option<Failure>)

  function ViewOf(s: ChatSession, error: Option<Failure>): ChatView {
    ChatView(s.sessionId, Some(s.title), s.model, s.query, s.translation, s.sourceLanguageId, s.targetLanguageId,
             s.sourceLanguageTitle, s.targetLanguageTitle, s.version, s.insertedAt, s.updatedAt, error)
  }

  /** `StatusType`. */
  datatype Status = Success | Error

  /** Every user other than `userId` is present in both maps or in neither, and unchanged. */
  predicate OthersUnchanged(before: Users, after: Users, userId: string) {
    && (forall u :: u in before && u != userId ==> u in after && after[u] == before[u])
    && (forall u :: u in after && u != userId ==> u in before)
  }

  // ---------------------------------------------------------------------------
  // The user's own session operations

  /** `user.get_session(id)`: the position of the first session with that id, if any. */
  function FindSession(ss: seq<ChatSession>, id: string): (r: Option<nat>)
    ensures r.Some? ==> r.value < |ss| && ss[r.value].sessionId == id
    ensures r.Some? ==> forall j :: 0 <= j < r.value ==> ss[j].sessionId != id
    ensures r.None? <==> forall j :: 0 <= j < |ss| ==> ss[j].sessionId != id
    decreases |ss|
  {
    if |ss| == 0 then None
    else if ss[0].sessionId == id then Some(0)
    else
      var r := FindSession(ss[1..], id);
      assert forall j :: 1 <= j < |ss| ==> ss[j] == ss[1..][j - 1];
      match r
      case None => None
      case Some(k) => Some(k + 1)
  }

  /** The sessions whose id is not in `ids`, in order. */
  function WithoutIds(ss: seq<ChatSession>, ids: set<string>): (r: seq<ChatSession>)
    ensures |r| <= |ss|
    ensures forall x :: x in r <==> x in ss && x.sessionId !in ids
    ensures (forall j :: 0 <= j < |ss| ==> ss[j].sessionId !in ids) ==> r == ss
    ensures (exists j :: 0 <= j < |ss| && ss[j].sessionId in ids) ==> |r| < |ss|
    decreases |ss|
  {
    if |ss| == 0 then []
    else
      var rest := WithoutIds(ss[1..], ids);
      assert ss == [ss[0]] + ss[1..];
      assert forall j :: 1 <= j < |ss| ==> ss[j] == ss[1..][j - 1];
      if ss[0].sessionId in ids then rest else [ss[0]] + rest
  }

  lemma {:induction false} WithoutIdsTwice(ss: seq<ChatSession>, a: set<string>, b: set<string>)
    ensures WithoutIds(WithoutIds(ss, a), b) == WithoutIds(ss, a + b)
    decreases |ss|
  {
    if |ss| > 0 {
      WithoutIdsTwice(ss[1..], a, b);
      if ss[0].sessionId !in a {
        assert WithoutIds(ss, a) == [ss[0]] + WithoutIds(ss[1..], a);
        assert WithoutIds(ss, a)[1..] == WithoutIds(ss[1..], a);
      }
    }
  }

  lemma {:induction false} WithoutIdsAppend(s: seq<ChatSession>, t: seq<ChatSession>, ids: set<string>)
    ensures WithoutIds(s + t, ids) == WithoutIds(s, ids) + WithoutIds(t, ids)
    decreases |s|
  {
    if |s| > 0 {
      assert (s + t)[1..] == s[1..] + t;
      WithoutIdsAppend(s[1..], t, ids);
    } else {
      assert s + t == t;
    }
  }

  /** No two sessions share an id (they are `uuid4` strings). */
  predicate DistinctIds(ss: seq<ChatSession>) {
    forall i, j :: 0 <= i < j < |ss| ==> ss[i].sessionId != ss[j].sessionId
  }

  function IdsOf(ss: seq<ChatSession>): (r: seq<string>)
    ensures |r| == |ss| && forall k :: 0 <= k < |ss| ==> r[k] == ss[k].sessionId
  {
    seq(|ss|, k requires 0 <= k < |ss| => ss[k].sessionId)
  }

  /** Taking out ids every session carries leaves nothing. */
  lemma WithoutAllIds(ss: seq<ChatSession>, ids: set<string>)
    requires forall k :: 0 <= k < |ss| ==> ss[k].sessionId in ids
    ensures WithoutIds(ss, ids) == []
  {
    var r := WithoutIds(ss, ids);
    if |r| > 0 {
      assert r[0] in r;
    }
  }

  /** Without repeated ids, taking out the ids of the sessions after position `n` leaves the first `n`. */
  lemma WithoutTailIds(ss: seq<ChatSession>, n: nat)
    requires n <= |ss| && DistinctIds(ss)
    ensures WithoutIds(ss, set x | x in IdsOf(ss[n..])) == ss[..n]
  {
    var head, tail := ss[..n], ss[n..];
    var ids := set x | x in IdsOf(tail);
    calc {
      WithoutIds(ss, ids);
      == { assert ss == head + tail; }
      WithoutIds(head + tail, ids);
      == { WithoutIdsAppend(head, tail, ids); }
      WithoutIds(head, ids) + WithoutIds(tail, ids);
      == { HeadIdsKept(ss, n); TailIdsGone(tail); }
      head + [];
    }
    assert head + [] == head;
  }

  /** The first `n` sessions carry none of the later sessions' ids. */
  lemma HeadIdsKept(ss: seq<ChatSession>, n: nat)
    requires n <= |ss| && DistinctIds(ss)
    ensures WithoutIds(ss[..n], set x | x in IdsOf(ss[n..])) == ss[..n]
  {
    var head, tail := ss[..n], ss[n..];
    forall j | 0 <= j < n
      ensures head[j].sessionId !in IdsOf(tail)
    {
      forall k | 0 <= k < |tail|
        ensures IdsOf(tail)[k] != head[j].sessionId
      {
        assert tail[k] == ss[n + k] && head[j] == ss[j];
      }
    }
  }

  /** A list of sessions without its own ids is empty. */
  lemma TailIdsGone(tail: seq<ChatSession>)
    ensures WithoutIds(tail, set x | x in IdsOf(tail)) == []
  {
    var ids := set x | x in IdsOf(tail);
    forall k | 0 <= k < |tail|
      ensures tail[k].sessionId in ids
    {
      assert IdsOf(tail)[k] in IdsOf(tail);
    }
    WithoutAllIds(tail, ids);
  }

  // ---------------------------------------------------------------------------
  // Deleting and listing

  /**
   * `delete_exist_session`: `user.delete_session(id)` takes out every session
   * with that id and reports whether there was one; an unknown user is an
   * error and changes nothing.
   */
  function DeleteExistSession(users: Users, sessionId: string, userId: string): (r: (Users, Status))
    ensures r.1 == Success <==> userId in users && HasSession(users[userId].sessions, sessionId)
    ensures r.1 == Error ==> r.0 == users
    ensures userId in users ==> r.0 == users[userId := users[userId].(sessions := WithoutIds(users[userId].sessions, {sessionId}))]
    ensures OthersUnchanged(users, r.0, userId)
  {
    if userId !in users then (users, Error)
    else
      var u := users[userId];
      var kept := WithoutIds(u.sessions, {sessionId});
      (users[userId := u.(sessions := kept)], if |kept| < |u.sessions| then Success else Error)
  }

  predicate HasSession(ss: seq<ChatSession>, id: string) {
    exists j :: 0 <= j < |ss| && ss[j].sessionId == id
  }

  /** Deleting the same session twice: the second call reports an error. */
  lemma DeleteTwice(users: Users, sessionId: string, userId: string)
    ensures DeleteExistSession(DeleteExistSession(users, sessionId, userId).0, sessionId, userId).1 == Error
  {
    var after := DeleteExistSession(users, sessionId, userId).0;
    if userId in users {
      var kept := after[userId].sessions;
      forall j | 0 <= j < |kept|
        ensures kept[j].sessionId != sessionId
      {
        assert kept[j] in kept;
      }
    }
  }

  lemma UpdateTwice(users: Users, userId: string, first: ChatUser, second: ChatUser)
    ensures users[userId := first][userId := second] == users[userId := second]
  {
  }

  /** Deletes the sessions with the given ids one after the other. */
  function DeleteAll(users: Users, userId: string, ids: seq<string>): Users
    decreases |ids|
  {
    if |ids| == 0 then users
    else DeleteAll(DeleteExistSession(users, ids[0], userId).0, userId, ids[1..])
  }

  lemma {:induction false} DeleteAllSpec(users: Users, userId: string, ids: seq<string>)
    ensures userId in users ==>
              DeleteAll(users, userId, ids) == users[userId := users[userId].(sessions := WithoutIds(users[userId].sessions, set x | x in ids))]
    ensures userId !in users ==> DeleteAll(users, userId, ids) == users
    decreases |ids|
  {
    if |ids| > 0 {
      var next := DeleteExistSession(users, ids[0], userId).0;
      var rest := set x | x in ids[1..];
      DeleteAllSpec(next, userId, ids[1..]);
      assert DeleteAll(users, userId, ids) == DeleteAll(next, userId, ids[1..]);
      if userId in users {
        DeleteThenRest(users, userId, ids[0], rest);
        SetOfCons(ids);
      }
    } else if userId in users {
      assert users[userId].(sessions := WithoutIds(users[userId].sessions, {})) == users[userId];
    }
  }

  lemma SetOfCons(ids: seq<string>)
    requires |ids| > 0
    ensures {ids[0]} + (set x | x in ids[1..]) == set x | x in ids
  {
    assert ids == [ids[0]] + ids[1..];
  }

  /** Deleting one id and then a set of ids is deleting both at once. */
  lemma DeleteThenRest(users: Users, userId: string, id: string, rest: set<string>)
    requires userId in users
    ensures var next := DeleteExistSession(users, id, userId).0;
      && userId in next
      && next[userId := next[userId].(sessions := WithoutIds(next[userId].sessions, rest))]
         == users[userId := users[userId].(sessions := WithoutIds(users[userId].sessions, {id} + rest))]
  {
    var u := users[userId];
    var first := u.(sessions := WithoutIds(u.sessions, {id}));
    var both := u.(sessions := WithoutIds(u.sessions, {id} + rest));
    WithoutIdsTwice(u.sessions, {id}, rest);
    assert first.(sessions := WithoutIds(first.sessions, rest)) == both;
    UpdateTwice(users, userId, first, both);
  }

  /** The key `User.sessions` is ordered by: the update time. */
  function UpdatedAt(s: ChatSession): real {
    s.updatedAt as real
  }

  /**
   * `user.get_sessions()`: the relationship is ordered by `updated_at`, least
   * recently updated first; sessions updated at the same time keep their
   * insertion order.
   */
  function Listed(ss: seq<ChatSession>): (r: seq<ChatSession>)
    ensures multiset(r) == multiset(ss)
    ensures forall i, j :: 0 <= i < j < |r| ==> r[i].updatedAt <= r[j].updatedAt
    ensures forall v :: WithKey(r, UpdatedAt, v) == WithKey(ss, UpdatedAt, v)
  {
    SortByIsStable(ss, UpdatedAt);
    SortBy(ss, UpdatedAt)
  }

  /** Two equal elements at two positions count twice. */
  lemma CountTwice<T>(s: seq<T>, i: nat, j: nat)
    requires i < j < |s| && s[i] == s[j]
    ensures multiset(s)[s[i]] >= 2
  {
    assert s == s[..j] + [s[j]] + s[j + 1..];
    assert s[i] == s[..j][i];
  }

  /** An element counted twice sits at two positions. */
  lemma TwoPositions<T>(s: seq<T>, x: T) returns (p: nat, q: nat)
    requires multiset(s)[x] >= 2
    ensures p < q < |s| && s[p] == x && s[q] == x
  {
    assert x in multiset(s);
    var a :| 0 <= a < |s| && s[a] == x;
    var rest := s[..a] + s[a + 1..];
    assert s == s[..a] + [s[a]] + s[a + 1..];
    assert multiset(rest)[x] == multiset(s)[x] - 1;
    assert x in multiset(rest);
    var k :| 0 <= k < |rest| && rest[k] == x;
    if k < a {
      assert s[k] == rest[k];
      p, q := k, a;
    } else {
      assert s[k + 1] == rest[k];
      p, q := a, k + 1;
    }
  }

  /** Reordering sessions keeps their ids distinct. */
  lemma DistinctIdsOfPermutation(a: seq<ChatSession>, b: seq<ChatSession>)
    requires DistinctIds(a) && multiset(a) == multiset(b)
    ensures DistinctIds(b)
  {
    forall i, j | 0 <= i < j < |b|
      ensures b[i].sessionId != b[j].sessionId
    {
      if b[i] == b[j] {
        CountTwice(b, i, j);
        var p, q := TwoPositions(a, b[i]);
      } else {
        assert b[i] in multiset(a) && b[j] in multiset(a);
        var p :| 0 <= p < |a| && a[p] == b[i];
        var q :| 0 <= q < |a| && a[q] == b[j];
        assert p != q;
      }
    }
  }

  /**
   * `get_session_list`: the views of the first `maxSessions` sessions in
   * `get_sessions()` order; every later session is deleted. An unknown user
   * reads as an empty list.
   */
  function GetSessionList(users: Users, userId: string, maxSessions: nat): (Users, seq<ChatView>) {
    if userId !in users then (users, [])
    else
      var ordered := Listed(users[userId].sessions);
      var shown := Take(ordered, maxSessions);
      (DeleteAll(users, userId, IdsOf(ordered[|shown|..])),
       seq(|shown|, k requires 0 <= k < |shown| => ViewOf(shown[k], None)))
  }

  /**
   * The list holds at most `maxSessions` views, of the user's least recently
   * updated sessions, oldest first; a session left out was updated no earlier
   * than every session shown.
   */
  lemma GetSessionListViews(users: Users, userId: string, maxSessions: nat)
    ensures var (after, views) := GetSessionList(users, userId, maxSessions);
      && |views| <= maxSessions
      && (userId !in users ==> views == [] && after == users)
      && (userId in users ==>
            var ss := users[userId].sessions;
            var ordered := Listed(ss);
            && |views| == (if maxSessions < |ss| then maxSessions else |ss|)
            && (forall k :: 0 <= k < |views| ==> views[k] == ViewOf(ordered[k], None))
            && (forall i, j :: 0 <= i < j < |views| ==> views[i].updatedAt <= views[j].updatedAt)
            && (forall k, j :: 0 <= k < |views| <= j < |ordered| ==> views[k].updatedAt <= ordered[j].updatedAt))
  {
  }

  /**
   * Listing deletes what it does not show: a user whose ids are distinct keeps
   * exactly the sessions listed, and every other user is untouched.
   */
  lemma GetSessionListStore(users: Users, userId: string, maxSessions: nat)
    requires userId in users
    ensures var after := GetSessionList(users, userId, maxSessions).0;
      var ss := users[userId].sessions;
      var m := if maxSessions < |ss| then maxSessions else |ss|;
      && OthersUnchanged(users, after, userId)
      && userId in after
      && after[userId] == users[userId].(sessions := after[userId].sessions)
      && (DistinctIds(ss) ==> forall x :: x in after[userId].sessions <==> x in Listed(ss)[..m])
  {
    var ss := users[userId].sessions;
    var ordered := Listed(ss);
    var shown := Take(ordered, maxSessions);
    var tail := IdsOf(ordered[|shown|..]);
    DeleteAllSpec(users, userId, tail);
    var after := GetSessionList(users, userId, maxSessions).0;
    assert after[userId].sessions == WithoutIds(ss, set x | x in tail);
    if DistinctIds(ss) {
      DistinctIdsOfPermutation(ss, ordered);
      WithoutTailIds(ordered, |shown|);
      WithoutIdsOfPermutation(ss, ordered, set x | x in tail);
    }
  }

  /** Removing ids from two orderings of the same sessions keeps the same sessions. */
  lemma WithoutIdsOfPermutation(a: seq<ChatSession>, b: seq<ChatSession>, ids: set<string>)
    requires multiset(a) == multiset(b)
    ensures forall x :: x in WithoutIds(a, ids) <==> x in WithoutIds(b, ids)
  {
    forall x
      ensures x in a <==> x in b
    {
      assert x in a <==> x in multiset(a);
      assert x in b <==> x in multiset(b);
    }
  }

  // ---------------------------------------------------------------------------
  // Creating

  /** `models.get(object_id=id)`: the first model row with that id. */
  function FindModel(models: seq<ModelRow>, modelId: string): (r: Option<ModelRow>)
    ensures r.Some? ==> r.value in models && r.value.modelId == modelId
    ensures r.None? <==> forall k :: 0 <= k < |models| ==> models[k].modelId != modelId
    decreases |models|
  {
    if |models| == 0 then None
    else if models[0].modelId == modelId then Some(models[0])
    else
      assert forall k :: 1 <= k < |models| ==> models[k] == models[1..][k - 1];
      FindModel(models[1..], modelId)
  }

  /** The source languages of the SPECIAL models, in table order. */
  function SpecialSources(models: seq<ModelRow>): (r: seq<string>)
    ensures forall x :: x in r <==> exists k :: 0 <= k < |models| && models[k].model == Special && models[k].sourceLanguageId == x
    decreases |models|
  {
    if |models| == 0 then []
    else
      var rest := SpecialSources(models[1..]);
      assert forall k :: 1 <= k < |models| ==> models[k] == models[1..][k - 1];
      if models[0].model == Special then [models[0].sourceLanguageId] + rest else rest
  }

  /** The mode and languages a create starts from. */
  datatype Setup = Setup(mode: string, source: string, target: string)

  /** No model id: automatic mode from "auto" to the default target; otherwise the model's own. */
  function SetupFor(models: seq<ModelRow>, modelId: Option<string>, defaultTarget: string): (r: Result<Setup, ChatError>)
    ensures r.Err? <==> modelId.Some? && modelId.value != "" && FindModel(models, modelId.value).None?
    ensures r.Err? ==> r.error == ModelNotFound
    ensures modelId.None? || modelId.value == "" ==> r == Ok(Setup(Auto, "auto", defaultTarget))
  {
    if modelId.None? || modelId.value == "" then Ok(Setup(Auto, "auto", defaultTarget))
    else
      match FindModel(models, modelId.value)
      case None => Err(ModelNotFound)
      case Some(m) => Ok(Setup(m.model, m.sourceLanguageId, m.targetLanguageId))
  }

  /** The session a create builds from the pipeline's record. */
  function NewChatSession(sessionId: string, query: string, setup: Setup, out: Request, now: int): ChatSession {
    var translation := out.translation.GetOr("");
    ChatSession(sessionId, SliceTo(query, 10) + " → " + SliceTo(translation, 10), out.mode.GetOr(setup.mode),
                query, translation, setup.source, setup.target,
                LangTitle(out.sourceLanguageId.GetOr(setup.source)), LangTitle(out.targetLanguageId.GetOr(setup.target)),
                0, now, now)
  }

  /** The user a session is appended to: the stored one, or a new one started now. */
  function OwnerOrNew(users: Users, userId: string, temporary: bool, now: int): ChatUser {
    if userId in users then users[userId] else ChatUser(userId, temporary, now, now, [])
  }

  /** The pipeline's input for a create. */
  function CreateRequest(models: seq<ModelRow>, query: string, setup: Setup): Request {
    Request(query, Some(setup.mode), Some(setup.source), Some(setup.target), SpecialSources(models), None, None)
  }

  /**
   * `create_new_session`: detects and translates, builds the session, and
   * stores it (creating the user if need be) only when the pipeline recorded
   * no error; the view is returned either way, with the error.
   */
  function CreateNewSession(users: Users, models: seq<ModelRow>, userId: string, query: string, modelId: Option<string>,
                            temporary: bool, engines: Engines, defaultTarget: string, sessionId: string, now: int)
    : Result<(Users, ChatView), ChatError>
  {
    var setup :- SetupFor(models, modelId, defaultTarget);
    var out := Pipeline(CreateRequest(models, query, setup), engines);
    var s := NewChatSession(sessionId, query, setup, out, now);
    var u := OwnerOrNew(users, userId, temporary, now);
    Ok((if out.error.None? then users[userId := u.(sessions := u.sessions + [s])] else users, ViewOf(s, out.error)))
  }

  /**
   * A create fails only for a model id that names no model. Otherwise the new
   * session starts at version 0 with equal creation and update times, is
   * titled by the first ten characters of query and translation, runs in
   * SPECIAL or UNIVERSAL mode when no model was named, and is appended to the
   * user's sessions (a new user if need be) exactly when the pipeline recorded
   * no error; other users are untouched.
   */
  lemma CreateNewSessionSpec(users: Users, models: seq<ModelRow>, userId: string, query: string, modelId: Option<string>,
                             temporary: bool, engines: Engines, defaultTarget: string, sessionId: string, now: int)
    ensures var r := CreateNewSession(users, models, userId, query, modelId, temporary, engines, defaultTarget, sessionId, now);
      && (r.Err? <==> modelId.Some? && modelId.value != "" && FindModel(models, modelId.value).None?)
      && (r.Ok? ==>
            var (after, view) := r.value;
            && view.sessionId == sessionId && view.version == 0 && view.insertedAt == view.updatedAt == now
            && view.title == Some(SliceTo(query, 10) + " → " + SliceTo(view.translation, 10))
            && view.query == query
            && (view.error.Some? ==> after == users)
            && (view.error.None? ==>
                  && userId in after
                  && after[userId].sessions == OwnerOrNew(users, userId, temporary, now).sessions + [after[userId].sessions[|after[userId].sessions| - 1]]
                  && ViewOf(after[userId].sessions[|after[userId].sessions| - 1], None) == view
                  && (userId !in users ==> after[userId].startedUsingAt == after[userId].lastUsedAt == now
                                            && after[userId].temporary == temporary)
                  && OthersUnchanged(users, after, userId)))
  {
  }

  /**
   * Without a model id the session starts from "auto" and settles on the
   * SPECIAL or the UNIVERSAL model.
   */
  lemma CreateAutoMode(users: Users, models: seq<ModelRow>, userId: string, query: string, temporary: bool,
                       engines: Engines, defaultTarget: string, sessionId: string, now: int)
    ensures var r := CreateNewSession(users, models, userId, query, None, temporary, engines, defaultTarget, sessionId, now);
      r.Ok? && r.value.1.model in {Special, Universal} && r.value.1.sourceLanguageId == "auto"
  {
    var setup := Setup(Auto, "auto", defaultTarget);
    var d := DetectorProcess(CreateRequest(models, query, setup), engines);
    assert Upper(Auto) == Auto;
    assert RequestedMode(d) == Auto;
    TranslatorSpec(d, engines);
  }

  // ---------------------------------------------------------------------------
  // Updating

  /** The titles of a re-translated session, from the languages the pipeline settled on. */
  function Retranslated(s: ChatSession, m: ModelRow, query: string, out: Request, version: int, now: int): ChatSession {
    s.(model := m.model, query := query, translation := out.translation.GetOr(""),
       sourceLanguageId := m.sourceLanguageId, targetLanguageId := m.targetLanguageId,
       sourceLanguageTitle := LangTitle(out.sourceLanguageId.GetOr(m.sourceLanguageId)),
       targetLanguageTitle := LangTitle(out.targetLanguageId.GetOr(m.targetLanguageId)),
       version := version + 1, updatedAt := now)
  }

  /** The pipeline's input for a re-translation: the model's mode and languages, no special models. */
  function UpdateRequest(m: ModelRow, query: string): Request {
    Request(query, Some(m.model), Some(m.sourceLanguageId), Some(m.targetLanguageId), [], None, None)
  }

  /**
   * `update_exist_session`: re-translates the query with the named model and,
   * for a known user, compare-and-swaps the session on its version; the change
   * is committed only when the pipeline recorded no error. An unknown user
   * changes nothing and gets the untitled view of the translation.
   */
  function UpdateExistSession(users: Users, models: seq<ModelRow>, userId: string, sessionId: string, modelId: string,
                              query: string, version: int, engines: Engines, now: int): Result<(Users, ChatView), ChatError>
  {
    match FindModel(models, modelId)
    case None => Err(NoModel)
    case Some(m) =>
      var out := Pipeline(UpdateRequest(m, query), engines);
      if userId !in users then
        Ok((users, ChatView(sessionId, None, m.model, query, out.translation.GetOr(""), m.sourceLanguageId,
                            m.targetLanguageId, LangTitle(out.sourceLanguageId.GetOr(m.sourceLanguageId)),
                            LangTitle(out.targetLanguageId.GetOr(m.targetLanguageId)), version, now, now, out.error)))
      else
        var u := users[userId];
        match FindSession(u.sessions, sessionId)
        case None => Err(SessionNotFound)
        case Some(i) =>
          if version != u.sessions[i].version then Err(VersionNotCorrect(version))
          else
            var s' := Retranslated(u.sessions[i], m, query, out, version, now);
            var u' := u.(sessions := u.sessions[i := s'], lastUsedAt := now);
            Ok((if out.error.None? then users[userId := u'] else users, ViewOf(s', out.error)))
  }

  /**
   * A re-translation of a known user's session is refused for a missing model,
   * a missing session or a stale version; on success the new version is the
   * supplied one plus one, the title, id and creation time are kept, and the
   * store changes, in that session and the user's last use only, exactly when
   * no error was recorded.
   */
  lemma UpdateExistSessionSpec(users: Users, models: seq<ModelRow>, userId: string, sessionId: string, modelId: string,
                               query: string, version: int, engines: Engines, now: int)
    requires userId in users
    ensures var r := UpdateExistSession(users, models, userId, sessionId, modelId, query, version, engines, now);
      var ss := users[userId].sessions;
      var found := FindSession(ss, sessionId);
      && (FindModel(models, modelId).None? ==> r == Err(NoModel))
      && (FindModel(models, modelId).Some? && found.None? ==> r == Err(SessionNotFound))
      && (FindModel(models, modelId).Some? && found.Some? ==>
            (r == Err(VersionNotCorrect(version)) <==> ss[found.value].version != version))
      && (r.Ok? ==>
            var (after, view) := r.value;
            var i := found.value;
            && found.Some? && ss[i].version == version
            && view.version == version + 1 && view.updatedAt == now
            && view.title == Some(ss[i].title) && view.sessionId == ss[i].sessionId && view.insertedAt == ss[i].insertedAt
            && view.query == query
            && (view.error.Some? ==> after == users)
            && (view.error.None? ==>
                  && userId in after
                  && |after[userId].sessions| == |ss|
                  && ViewOf(after[userId].sessions[i], None) == view
                  && (forall j :: 0 <= j < |ss| && j != i ==> after[userId].sessions[j] == ss[j])
                  && after[userId].lastUsedAt == now
                  && after[userId].startedUsingAt == users[userId].startedUsingAt
                  && OthersUnchanged(users, after, userId)))
  {
  }

  /**
   * `update_title_session`: an unknown user gets `None` and no change;
   * otherwise a compare-and-swap on the session's version that stores the
   * title as given.
   */
  function UpdateTitleSession(users: Users, userId: string, sessionId: string, title: string, version: int, now: int)
    : Result<(Users, Option<ChatView>), ChatError>
  {
    if userId !in users then Ok((users, None))
    else
      var u := users[userId];
      match FindSession(u.sessions, sessionId)
      case None => Err(SessionNotFound)
      case Some(i) =>
        if version != u.sessions[i].version then Err(VersionNotCorrect(version))
        else
          var s' := u.sessions[i].(title := title, version := version + 1, updatedAt := now);
          var u' := u.(sessions := u.sessions[i := s'], lastUsedAt := now);
          Ok((users[userId := u'], Some(ViewOf(s', None))))
  }

  /**
   * A renaming is refused for a missing session or a stale version; on
   * success the session keeps every field but its title (the given one), its
   * version (the supplied one plus one) and its update time (now).
   */
  lemma UpdateTitleSessionSpec(users: Users, userId: string, sessionId: string, title: string, version: int, now: int)
    ensures var r := UpdateTitleSession(users, userId, sessionId, title, version, now);
      && (userId !in users ==> r == Ok((users, None)))
      && (userId in users ==>
            var ss := users[userId].sessions;
            var found := FindSession(ss, sessionId);
            && (found.None? ==> r == Err(SessionNotFound))
            && (found.Some? ==> (r == Err(VersionNotCorrect(version)) <==> ss[found.value].version != version))
            && (r.Ok? ==>
                  var (after, view) := r.value;
                  var old_ := ss[found.value];
                  var new_ := after[userId].sessions[found.value];
                  && userId in after && |after[userId].sessions| == |ss|
                  && view == Some(ViewOf(new_, None))
                  && new_.title == title && new_.version == old_.version + 1 && new_.updatedAt == now
                  && new_.sessionId == old_.sessionId && new_.model == old_.model && new_.query == old_.query
                  && new_.translation == old_.translation && new_.insertedAt == old_.insertedAt
                  && new_.sourceLanguageId == old_.sourceLanguageId && new_.targetLanguageId == old_.targetLanguageId
                  && new_.sourceLanguageTitle == old_.sourceLanguageTitle
                  && new_.targetLanguageTitle == old_.targetLanguageTitle
                  && (forall j :: 0 <= j < |ss| && j != found.value ==> after[userId].sessions[j] == ss[j])
                  && after[userId].lastUsedAt == now
                  && OthersUnchanged(users, after, userId)))
  {
  }

  /** Replaying a renaming with the version it was made against is refused. */
  lemma UpdateTitleIsCompareAndSwap(users: Users, userId: string, sessionId: string, title: string, version: int,
                                    now: int, title': string, now': int)
    requires UpdateTitleSession(users, userId, sessionId, title, version, now).Ok?
    requires UpdateTitleSession(users, userId, sessionId, title, version, now).value.1.Some?
    ensures UpdateTitleSession(UpdateTitleSession(users, userId, sessionId, title, version, now).value.0,
                               userId, sessionId, title', version, now') == Err(VersionNotCorrect(version))
  {
    var after := UpdateTitleSession(users, userId, sessionId, title, version, now).value.0;
    var i := FindSession(users[userId].sessions, sessionId).value;
    var ss' := after[userId].sessions;
    assert ss'[i].sessionId == sessionId;
  }

  // ---------------------------------------------------------------------------
  // Searching

  /** At most this many search results. */
  const SearchCap := 20

  /** The text a search matches: title, query and translation joined by " | ". */
  function Blob(s: ChatSession): string {
    JoinWith(" | ", [s.title, s.query, s.translation])
  }

  function ChatScore(query: string): ChatSession -> real {
    s => ChatMatchScore(Blob(s), query)
  }

  /** `search_similarity_sessions`. */
  function SearchSimilaritySessions(users: Users, userId: string, query: string): Result<seq<Scored<ChatSession>>, ChatError> {
    if IsBlank(query) then Err(EmptyRequest)
    else if userId !in users then Err(NoSessions)
    else Ok(Rank(Listed(users[userId].sessions), ChatScore(query), SearchCap))
  }

  /**
   * A blank query is refused before the user is looked up, an unknown user
   * next; otherwise the results rank the user's sessions, taken in
   * `get_sessions()` order, by match score (see `IsRanking`: equal scores keep
   * that order): at most 20, each scoring its blob's match against the query.
   */
  lemma SearchSpec(users: Users, userId: string, query: string)
    ensures var r := SearchSimilaritySessions(users, userId, query);
      && (r == Err(EmptyRequest) <==> IsBlank(query))
      && (r == Err(NoSessions) <==> !IsBlank(query) && userId !in users)
      && (r.Ok? ==>
            && IsRanking(r.value, Listed(users[userId].sessions), ChatScore(query), SearchCap)
            && |r.value| <= SearchCap
            && forall k :: 0 <= k < |r.value| ==> r.value[k].score == ChatMatchScore(Blob(r.value[k].item), query))
  {
    if !IsBlank(query) && userId in users {
      var ss, score := Listed(users[userId].sessions), ChatScore(query);
      var ranked := Rank(ss, score, SearchCap);
      RankSpec(ss, score, SearchCap);
      forall k | 0 <= k < |ranked|
        ensures ranked[k].score == ChatMatchScore(Blob(ranked[k].item), query)
      {
        assert ranked[k].score == score(ranked[k].item);
      }
    }
  }
}
