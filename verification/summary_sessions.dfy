/**
 * The session handlers of the summarization service: a store of users, each
 * owning a list of versioned sessions, and the handlers that list, create,
 * re-analyse, rename, delete and search them. Every update is a compare-and-swap
 * on the session's version. A handler that raises leaves the store as it was:
 * the model returns no new store on `Err`.
 */
module SummarySessions {
  import opened Wrappers
  import opened Strings
  import opened Seqs
  import opened Templates
  import opened Similarity
  import opened Sorting
  import opened Ranking
  import opened Analysis
  import opened SummaryAnalysis

  /** A stored session; `content` holds the five analysis texts. */
  datatype Session = Session(
    sessionId: string,
    version: int,
    title: string,
    text: string,
    content: Report,
    insertedAt: int,
    updatedAt: int)

  /** A user and the sessions it owns, in stored order. */
  datatype User = User(
    userId: string,
    temporary: bool,
    startedUsingAt: int,
    lastUsedAt: int,
    sessions: seq<Session>)

  /** The users, by id. */
  type Store = map<string, User>

  /** `AUTO_SUMMARIZATION_MAX_SESSIONS` and `AUTO_SUMMARIZATION_MAX_TEXT_LENGTH`. */
  datatype Limits = Limits(maxSessions: nat, maxTextLength: nat)

  /** An empty set of analysis texts: what a new session starts from. */
  const Blank := Report("", "", "", "", "")

  // ---------------------------------------------------------------------------
  // The user's own session operations

  /** `user.get_session(id)`: the position of the first session with that id, if any. */
  function FindSession(ss: seq<Session>, id: string): (r: Option<nat>)
    ensures r.Some? ==> r.value < |ss| && ss[r.value].sessionId == id
    ensures r.Some? ==> forall j :: 0 <= j < r.value ==> ss[j].sessionId != id
    ensures r.None? <==> forall j :: 0 <= j < |ss| ==> ss[j].sessionId != id
    decreases |ss|
  {
    if |ss| == 0 then None
    else if ss[0].sessionId == id then Some(0)
    else
      var r := FindSession(ss[1..], id);
      assert forall j :: 1 <= j < |ss| ==> ss[j] == ss[1..][j - 1];
      match r
      case None => None
      case Some(k) => Some(k + 1)
  }

  /** `user.delete_session(id)`: every session with that id is dropped, the rest keep their order. */
  function RemoveSession(ss: seq<Session>, id: string): (r: seq<Session>)
    ensures |r| <= |ss|
    ensures forall k :: 0 <= k < |r| ==> r[k].sessionId != id && r[k] in ss
    ensures forall j :: 0 <= j < |ss| && ss[j].sessionId != id ==> ss[j] in r
    ensures (forall j :: 0 <= j < |ss| ==> ss[j].sessionId != id) ==> r == ss
    ensures (exists j :: 0 <= j < |ss| && ss[j].sessionId == id) ==> |r| < |ss|
    decreases |ss|
  {
    if |ss| == 0 then []
    else
      var rest := RemoveSession(ss[1..], id);
      assert forall j :: 1 <= j < |ss| ==> ss[j] == ss[1..][j - 1];
      if ss[0].sessionId == id then rest else [ss[0]] + rest
  }

  /** Every user other than `userId` is present in both stores or in neither, and unchanged. */
  predicate OthersUnchanged(before: Store, after: Store, userId: string) {
    && (forall u :: u in before && u != userId ==> u in after && after[u] == before[u])
    && (forall u :: u in after && u != userId ==> u in before)
  }

  /** Every stored version is a natural number: versions start at 0 and only ever grow by one. */
  predicate VersionsNatural(store: Store) {
    forall u, k :: u in store && 0 <= k < |store[u].sessions| ==> store[u].sessions[k].version >= 0
  }

  // ---------------------------------------------------------------------------
  // Views

  /** What `_session_to_dict` returns; the short form has no text and no content. */
  datatype SessionView = SessionView(
    sessionId: string,
    version: int,
    title: string,
    text: Option<string>,
    content: Option<Report>,
    insertedAt: int,
    updatedAt: int)

  /** `_session_to_dict(session, short)`. */
  function SessionToDict(s: Session, short: bool): (r: SessionView)
    ensures r.text.None? <==> short
    ensures r.content.None? <==> short
  {
    SessionView(s.sessionId, s.version, s.title,
      if short then None else Some(s.text),
      if short then None else Some(s.content),
      s.insertedAt, s.updatedAt)
  }

  /** The session a full view describes. */
  function FromView(v: SessionView): Session
    requires v.text.Some? && v.content.Some?
  {
    Session(v.sessionId, v.version, v.title, v.text.value, v.content.value, v.insertedAt, v.updatedAt)
  }

  /** The full view loses nothing: the session can be read back from it. */
  lemma FullViewRoundTrip(s: Session)
    ensures FromView(SessionToDict(s, false)) == s
  {
  }

  /** The short view keeps everything but the text and the content. */
  lemma ShortViewKeeps(s: Session)
    ensures var v := SessionToDict(s, true);
      FromView(v.(text := Some(s.text), content := Some(s.content))) == s
  {
  }

  /** `get_session_list`: the full views of the user's first `maxSessions` sessions; none for an unknown user. */
  function GetSessionList(store: Store, userId: string, limits: Limits): (r: seq<SessionView>)
    ensures userId !in store ==> r == []
    ensures |r| <= limits.maxSessions
    ensures userId in store ==> |r| == if limits.maxSessions < |store[userId].sessions| then limits.maxSessions
                                       else |store[userId].sessions|
    ensures userId in store ==> forall k :: 0 <= k < |r| ==> r[k] == SessionToDict(store[userId].sessions[k], false)
  {
    if userId !in store then []
    else
      var ss := Take(store[userId].sessions, limits.maxSessions);
      seq(|ss|, k requires 0 <= k < |ss| => SessionToDict(ss[k], false))
  }

  // ---------------------------------------------------------------------------
  // Creating a session

  /** `_validate_text_length`: the text must be non-empty and at most the limit long. */
  function ValidateTextLength(text: string, limits: Limits): (r: Option<SessionError>)
    ensures r.None? <==> 0 < |text| <= limits.maxTextLength
    ensures r == Some(TextMissing) <==> text == ""
    ensures r == Some(TextTooLong(limits.maxTextLength)) <==> text != "" && |text| > limits.maxTextLength
  {
    if text == "" then Some(TextMissing)
    else if |text| > limits.maxTextLength then Some(TextTooLong(limits.maxTextLength))
    else None
  }

  /** `title.strip() or short_summary[:40] or text[:40]`. */
  function NewTitle(title: string, shortSummary: string, text: string): (r: string)
    ensures !IsBlank(title) ==> r == Strip(title)
    ensures IsBlank(title) ==> (r <= shortSummary || r <= text) && |r| <= 40
    ensures text != "" ==> r != ""
  {
    var stripped := Strip(title);
    if stripped != "" then stripped
    else if SliceTo(shortSummary, 40) != "" then SliceTo(shortSummary, 40)
    else SliceTo(text, 40)
  }

  /** The fresh session: version 0, created and updated at `now`. */
  function NewSession(sessionId: string, title: string, text: string, report: Report, now: int): Session {
    Session(sessionId, 0, NewTitle(title, report.shortSummary, text), text, report, now, now)
  }

  /** The owner: the stored user, or a new one started at `now` with no sessions. */
  function OwnerOrNew(store: Store, userId: string, temporary: bool, now: int): User {
    if userId in store then store[userId] else User(userId, temporary, now, now, [])
  }

  /** What a successful creation returns: the new store, the session id and the five texts. */
  datatype Created = Created(store: Store, sessionId: string, report: Report)

  /**
   * `create_new_session`. `sessionId` is the generated identifier and `now` the
   * clock's reading; the analysis runs before the store is touched.
   */
  function CreateNewSession(store: Store, userId: string, title: string, text: string, categoryIndex: int,
                            choices: seq<int>, temporary: bool, ts: seq<Template>, c: Collaborators,
                            limits: Limits, now: int, sessionId: string): Result<Created, SessionError>
  {
    match ValidateTextLength(text, limits)
    case Some(e) => Err(e)
    case None =>
      match GenerateAnalysis(text, categoryIndex, choices, ts, Blank, c)
      case Err(e) => Err(e)
      case Ok(analysed) =>
        var session := NewSession(sessionId, title, text, analysed.report, now);
        var owner := OwnerOrNew(store, userId, temporary, now);
        var updated := owner.(sessions := owner.sessions + [session], lastUsedAt := now);
        Ok(Created(store[userId := updated], sessionId, analysed.report))
  }

  /** Creation fails for a missing or too long text first, then only as the analysis fails. */
  lemma CreateErrors(store: Store, userId: string, title: string, text: string, categoryIndex: int,
                     choices: seq<int>, temporary: bool, ts: seq<Template>, c: Collaborators,
                     limits: Limits, now: int, sessionId: string)
    ensures var r := CreateNewSession(store, userId, title, text, categoryIndex, choices, temporary, ts, c, limits, now, sessionId);
      && (r == Err(TextMissing) <==> text == "")
      && (r == Err(TextTooLong(limits.maxTextLength)) <==> text != "" && |text| > limits.maxTextLength)
      && (r.Ok? <==> 0 < |text| <= limits.maxTextLength && GenerateAnalysis(text, categoryIndex, choices, ts, Blank, c).Ok?)
  {
    var g := GenerateAnalysis(text, categoryIndex, choices, ts, Blank, c);
    if g.Err? {
      GenerateAnalysisErrors(text, categoryIndex, choices, ts, Blank, c);
    }
  }

  /**
   * A created session is appended to its owner's list, which starts empty for a
   * new owner: version 0, inserted and updated at the same instant, the generated
   * texts and the title rule; no other user changes.
   */
  lemma CreateStores(store: Store, userId: string, title: string, text: string, categoryIndex: int,
                     choices: seq<int>, temporary: bool, ts: seq<Template>, c: Collaborators,
                     limits: Limits, now: int, sessionId: string)
    requires CreateNewSession(store, userId, title, text, categoryIndex, choices, temporary, ts, c, limits, now, sessionId).Ok?
    ensures var out := CreateNewSession(store, userId, title, text, categoryIndex, choices, temporary, ts, c, limits, now, sessionId).value;
      var before := if userId in store then store[userId].sessions else [];
      && userId in out.store
      && out.sessionId == sessionId
      && |out.store[userId].sessions| == |before| + 1
      && out.store[userId].sessions[..|before|] == before
      && out.store[userId].sessions[|before|] == Session(sessionId, 0, NewTitle(title, out.report.shortSummary, text),
                                                         text, out.report, now, now)
      && out.store[userId].lastUsedAt == now
      && (userId !in store ==> out.store[userId].temporary == temporary && out.store[userId].startedUsingAt == now)
      && OthersUnchanged(store, out.store, userId)
  {
    var analysed := GenerateAnalysis(text, categoryIndex, choices, ts, Blank, c).value;
    var owner := OwnerOrNew(store, userId, temporary, now);
    var session := NewSession(sessionId, title, text, analysed.report, now);
    var updated := owner.(sessions := owner.sessions + [session], lastUsedAt := now);
    assert CreateNewSession(store, userId, title, text, categoryIndex, choices, temporary, ts, c, limits, now, sessionId).value
      == Created(store[userId := updated], sessionId, analysed.report);
  }

  // ---------------------------------------------------------------------------
  // Updating a session

  /** The session a compare-and-swap update works on, or the error that stops it. */
  function Target(store: Store, userId: string, sessionId: string, version: int): (r: Result<nat, SessionError>)
    ensures r == Err(UserNotFound) <==> userId !in store
    ensures r == Err(SessionNotFound) <==> userId in store && FindSession(store[userId].sessions, sessionId).None?
    ensures r == Err(VersionMismatch) <==>
      && userId in store && FindSession(store[userId].sessions, sessionId).Some?
      && store[userId].sessions[FindSession(store[userId].sessions, sessionId).value].version != version
    ensures r.Ok? ==> (&& userId in store && FindSession(store[userId].sessions, sessionId) == Some(r.value)
                       && store[userId].sessions[r.value].version == version)
  {
    if userId !in store then Err(UserNotFound)
    else
      match FindSession(store[userId].sessions, sessionId)
      case None => Err(SessionNotFound)
      case Some(i) =>
        if store[userId].sessions[i].version != version then Err(VersionMismatch) else Ok(i)
  }

  /** Replaces the owner's `i`-th session and stamps the owner's last use. */
  function Commit(store: Store, userId: string, i: nat, s: Session, now: int): (r: Store)
    requires userId in store && i < |store[userId].sessions|
  {
    var u := store[userId];
    store[userId := u.(sessions := u.sessions[i := s], lastUsedAt := now)]
  }

  /** What a successful update returns: the new store and the five texts or the session's view. */
  datatype Updated<T> = Updated(store: Store, response: T)

  /**
   * `update_session_summarization`: re-analyses the given text on top of the
   * session's current texts; the session's own text and title are not changed.
   */
  function UpdateSessionSummarization(store: Store, userId: string, sessionId: string, text: string,
                                      categoryIndex: int, choices: seq<int>, version: int, ts: seq<Template>,
                                      c: Collaborators, limits: Limits, now: int): Result<Updated<Report>, SessionError>
  {
    match ValidateTextLength(text, limits)
    case Some(e) => Err(e)
    case None =>
      match Target(store, userId, sessionId, version)
      case Err(e) => Err(e)
      case Ok(i) =>
        var s := store[userId].sessions[i];
        match GenerateAnalysis(text, categoryIndex, choices, ts, s.content, c)
        case Err(e) => Err(e)
        case Ok(analysed) =>
          var s' := s.(content := analysed.report, version := version + 1, updatedAt := now);
          Ok(Updated(Commit(store, userId, i, s', now), analysed.report))
  }

  /** `update_title_session`: stores the title as given. */
  function UpdateTitleSession(store: Store, userId: string, sessionId: string, title: string, version: int,
                              now: int): Result<Updated<SessionView>, SessionError>
  {
    match Target(store, userId, sessionId, version)
    case Err(e) => Err(e)
    case Ok(i) =>
      var s := store[userId].sessions[i];
      var s' := s.(title := title, version := version + 1, updatedAt := now);
      Ok(Updated(Commit(store, userId, i, s', now), SessionToDict(s', false)))
  }

  /**
   * A committed update changes only the owner's one session and last use: the
   * other sessions, their order and every other user stay as they were.
   */
  lemma CommitScope(store: Store, userId: string, i: nat, s: Session, now: int)
    requires userId in store && i < |store[userId].sessions|
    ensures var after := Commit(store, userId, i, s, now);
      && userId in after
      && |after[userId].sessions| == |store[userId].sessions|
      && after[userId].sessions[i] == s
      && (forall j :: 0 <= j < |store[userId].sessions| && j != i ==> after[userId].sessions[j] == store[userId].sessions[j])
      && after[userId].lastUsedAt == now
      && OthersUnchanged(store, after, userId)
  {
  }

  /**
   * A re-analysis is refused for a bad text, an unknown user, an unknown session
   * and a stale version, in that order; on success the session's version is the
   * supplied one plus one, its text, title and creation time are kept, and its
   * texts are the analysis result.
   */
  lemma UpdateSummarizationSpec(store: Store, userId: string, sessionId: string, text: string,
                                categoryIndex: int, choices: seq<int>, version: int, ts: seq<Template>,
                                c: Collaborators, limits: Limits, now: int)
    ensures var r := UpdateSessionSummarization(store, userId, sessionId, text, categoryIndex, choices, version, ts, c, limits, now);
      && (ValidateTextLength(text, limits).Some? ==> r == Err(ValidateTextLength(text, limits).value))
      && (ValidateTextLength(text, limits).None? && Target(store, userId, sessionId, version).Err? ==>
            r == Err(Target(store, userId, sessionId, version).error))
      && (r.Ok? ==>
            && Target(store, userId, sessionId, version).Ok?
            && var i := Target(store, userId, sessionId, version).value;
               var old_ := store[userId].sessions[i];
               && r.value.store == Commit(store, userId, i, old_.(content := r.value.response, version := version + 1,
                                                                    updatedAt := now), now)
               && old_.version == version)
  {
  }

  /** A renaming is refused for an unknown user, an unknown session or a stale version; otherwise only title, version and update time change. */
  lemma UpdateTitleSpec(store: Store, userId: string, sessionId: string, title: string, version: int, now: int)
    ensures var r := UpdateTitleSession(store, userId, sessionId, title, version, now);
      && (Target(store, userId, sessionId, version).Err? ==> r == Err(Target(store, userId, sessionId, version).error))
      && (r.Ok? ==>
            && Target(store, userId, sessionId, version).Ok?
            && var i := Target(store, userId, sessionId, version).value;
               var old_ := store[userId].sessions[i];
               var new_ := old_.(title := title, version := old_.version + 1, updatedAt := now);
               && r.value.store == Commit(store, userId, i, new_, now)
               && FromView(r.value.response) == new_)
  {
  }

  /** Every handler keeps all stored versions natural numbers. */
  lemma UpdatesKeepVersionsNatural(store: Store, userId: string, i: nat, s: Session, now: int)
    requires VersionsNatural(store)
    requires userId in store && i < |store[userId].sessions|
    requires s.version == store[userId].sessions[i].version + 1
    ensures VersionsNatural(Commit(store, userId, i, s, now))
  {
    var after := Commit(store, userId, i, s, now);
    forall u, k | u in after && 0 <= k < |after[u].sessions|
      ensures after[u].sessions[k].version >= 0
    {
      if u == userId && k == i {
        assert store[userId].sessions[i].version >= 0;
      }
    }
  }

  // ---------------------------------------------------------------------------
  // Deleting and searching

  /** `StatusType`. */
  datatype Status = Success | Error

  /**
   * `delete_exist_session`: success exactly when the user exists and has a
   * session with that id; only then does the store change.
   */
  function DeleteExistSession(store: Store, sessionId: string, userId: string): (r: (Store, Status))
  {
    if userId !in store then (store, Error)
    else
      var u := store[userId];
      var kept := RemoveSession(u.sessions, sessionId);
      if |kept| < |u.sessions| then (store[userId := u.(sessions := kept)], Success)
      else (store, Error)
  }

  /** Success exactly when the session is there; after it no session with the id is left; failure changes nothing. */
  lemma DeleteSpec(store: Store, sessionId: string, userId: string)
    ensures var (after, status) := DeleteExistSession(store, sessionId, userId);
      && (status == Success <==> userId in store && exists j :: 0 <= j < |store[userId].sessions| && store[userId].sessions[j].sessionId == sessionId)
      && (status == Error ==> after == store)
      && (status == Success ==> userId in after && FindSession(after[userId].sessions, sessionId).None?)
      && OthersUnchanged(store, after, userId)
  {
  }

  /** Deleting the same session twice: the second call reports an error. */
  lemma DeleteTwice(store: Store, sessionId: string, userId: string)
    ensures var (after, _) := DeleteExistSession(store, sessionId, userId);
      DeleteExistSession(after, sessionId, userId).1 == Error
  {
    DeleteSpec(store, sessionId, userId);
    var (after, _) := DeleteExistSession(store, sessionId, userId);
    DeleteSpec(after, sessionId, userId);
  }

  /** Deleting keeps every stored version natural. */
  lemma DeleteKeepsVersionsNatural(store: Store, sessionId: string, userId: string)
    requires VersionsNatural(store)
    ensures VersionsNatural(DeleteExistSession(store, sessionId, userId).0)
  {
    var after := DeleteExistSession(store, sessionId, userId).0;
    forall u, k | u in after && 0 <= k < |after[u].sessions|
      ensures after[u].sessions[k].version >= 0
    {
      var s := after[u].sessions[k];
      assert s in after[u].sessions;
      if u == userId && userId in store {
        assert s in store[userId].sessions;
      }
    }
  }

  /** The text a search matches: the non-empty parts among title, the five texts and the text, joined by " | ". */
  function SessionBlob(s: Session): string {
    JoinWith(" | ", NonEmpty([s.title, s.content.entities, s.content.sentiments, s.content.classifications,
                              s.content.shortSummary, s.content.fullSummary, s.text]))
  }

  /** The relevance of a session to a query. */
  function SessionScore(query: string, ratio: (string, string) -> UnitReal): Session -> real {
    s => MatchScore(SessionBlob(s), query, ratio)
  }

  /** The ranked matches of the user's sessions, before they are turned into short views. */
  function SearchRanking(u: User, query: string, ratio: (string, string) -> UnitReal, limits: Limits): seq<Scored<Session>> {
    Rank(u.sessions, SessionScore(query, ratio), limits.maxSessions)
  }

  /** `search_similarity_sessions`; `ratio` is difflib's matcher ratio. */
  function SearchSimilaritySessions(store: Store, userId: string, query: string,
                                    ratio: (string, string) -> UnitReal, limits: Limits): Result<seq<SessionView>, SessionError>
  {
    if IsBlank(query) then Err(EmptyRequest)
    else if userId !in store then Err(NoSessions)
    else
      var ranked := SearchRanking(store[userId], query, ratio, limits);
      Ok(seq(|ranked|, k requires 0 <= k < |ranked| => SessionToDict(ranked[k].item, true)))
  }

  /** A blank query is refused before the user is looked up; an unknown user is refused next. */
  lemma SearchRefusals(store: Store, userId: string, query: string, ratio: (string, string) -> UnitReal, limits: Limits)
    ensures var r := SearchSimilaritySessions(store, userId, query, ratio, limits);
      && (r == Err(EmptyRequest) <==> IsBlank(query))
      && (r == Err(NoSessions) <==> !IsBlank(query) && userId !in store)
      && (r.Ok? <==> !IsBlank(query) && userId in store)
  {
  }

  /** The results are the short views of the ranked sessions, one per ranked session, in rank order. */
  lemma SearchViews(store: Store, userId: string, query: string, ratio: (string, string) -> UnitReal, limits: Limits)
    requires SearchSimilaritySessions(store, userId, query, ratio, limits).Ok?
    ensures var r := SearchSimilaritySessions(store, userId, query, ratio, limits).value;
      var ranked := SearchRanking(store[userId], query, ratio, limits);
      && |r| == |ranked| <= limits.maxSessions
      && forall k :: 0 <= k < |ranked| ==> r[k] == SessionToDict(ranked[k].item, true)
  {
    RankSpec(store[userId].sessions, SessionScore(query, ratio), limits.maxSessions);
  }

  /**
   * The ranked sessions rank the user's own sessions by match score (see
   * `IsRanking`), each scored by its blob's match against the query.
   */
  lemma SearchRankingSpec(u: User, query: string, ratio: (string, string) -> UnitReal, limits: Limits)
    ensures var ranked := SearchRanking(u, query, ratio, limits);
      && IsRanking(ranked, u.sessions, SessionScore(query, ratio), limits.maxSessions)
      && |ranked| <= limits.maxSessions
      && forall k :: 0 <= k < |ranked| ==> ranked[k].score == MatchScore(SessionBlob(ranked[k].item), query, ratio)
  {
    var score := SessionScore(query, ratio);
    var ranked := SearchRanking(u, query, ratio, limits);
    RankSpec(u.sessions, score, limits.maxSessions);
    forall k | 0 <= k < |ranked|
      ensures ranked[k].score == MatchScore(SessionBlob(ranked[k].item), query, ratio)
    {
      assert ranked[k].score == score(ranked[k].item);
    }
  }
}
