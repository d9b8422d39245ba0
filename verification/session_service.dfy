/**
 * `SessionService` of the summarization service: analysis sessions owned by a
 * user id, kept in one store, created with a per-owner cap, and updated by a
 * compare-and-swap on their version. A call that raises rolls the whole unit
 * of work back, so every operation either returns the new store or an error
 * and no store.
 */
module SessionService {
  import opened Wrappers
  import opened Strings
  import opened Http
  import opened AnalyzeService
  import opened Sorting
  import Seqs

  /** An `AnalysisSession` row; `results` is the prepared analysis. */
  datatype StoredSession = StoredSession(
    sessionId: string,
    userId: string,
    title: string,
    text: string,
    categoryIndex: int,
    choiceIndexes: seq<int>,
    results: AnalysisResult,
    version: int,
    insertedAt: int,
    updatedAt: int)

  /** The rows of the `analysis_sessions` table; new rows go at the end. */
  type Store = seq<StoredSession>

  /**
   * The service's configuration: its `AnalyzeService.analyse` and
   * `AUTO_SUMMARIZATION_MAX_SESSIONS`.
   */
  datatype Service = Service(analyse: (string, int, seq<int>) -> Result<AnalysisResult, HttpError>, maxSessions: int)

  /** The service as constructed by default: `analyse` over the stored analysis types and the given collaborators. */
  function DefaultService(categories: seq<Category>, tools: Tools, maxSessions: int): (r: Service)
    ensures forall text, category, choices :: r.analyse(text, category, choices) == Analyse(text, categories, category, choices, tools)
  {
    Service((text, category, choices) => Analyse(text, categories, category, choices, tools), maxSessions)
  }

  /** What a successful create or update leaves behind: the new store and the session it returns. */
  datatype Saved = Saved(store: Store, session: StoredSession)

  const MissingUser := HttpError(Unauthorized, "Не указан идентификатор пользователя")
  const SessionNotFound := HttpError(NotFound, "Сессия не найдена")
  const StaleVersion := HttpError(Conflict, "Версия сессии устарела")
  const InvalidTitle := HttpError(BadRequest, "Некорректный заголовок")
  const NothingToUpdate := HttpError(BadRequest, "Нет изменений для обновления")

  const DefaultTitle := "Новая сессия"
  /** The version a new session starts at; every update raises it by one. */
  const InitialVersion := 0
  const TitleLimit := 80

  function RunAnalysis(svc: Service, text: string, category: int, choices: seq<int>): Result<AnalysisResult, HttpError> {
    svc.analyse(text, category, choices)
  }

  // ---------------------------------------------------------------------------
  // Helpers

  /** `_require_user`: a missing or empty user id is a 401; any other id is the owner as given. */
  function RequireUser(userId: Option<string>): (r: Result<string, HttpError>)
    ensures r.Err? <==> userId == None || userId == Some("")
    ensures r.Err? ==> r.error == MissingUser
    ensures r.Ok? ==> userId == Some(r.value) && r.value != ""
  {
    if userId.None? || userId.value == "" then Err(MissingUser) else Ok(userId.value)
  }

  /** `_resolve_title`'s candidate before shortening: the stripped summary when it is not blank, else the stripped text. */
  function TitleCandidate(results: AnalysisResult, text: string): string {
    if results.shortSummary.Some? && !IsBlank(results.shortSummary.value) then Strip(results.shortSummary.value)
    else Strip(text)
  }

  /** A candidate longer than 80 characters: its first 77, right-stripped, then "...". */
  function Shorten(candidate: string): string {
    if |candidate| > TitleLimit then RStrip(candidate[..77]) + "..." else candidate
  }

  /** `_resolve_title`. */
  function ResolveTitle(title: Option<string>, results: AnalysisResult, text: string): (r: string)
    ensures r != ""
  {
    if title.Some? && !IsBlank(title.value) then Strip(title.value)
    else
      var candidate := Shorten(TitleCandidate(results, text));
      if candidate == "" then DefaultTitle else candidate
  }

  /**
   * A non-blank explicit title is used stripped; otherwise the title comes from
   * the summary or the text, is at most 80 characters long, is the candidate
   * itself when that fits, and is a prefix of it followed by "..." when not.
   */
  lemma ResolveTitleSpec(title: Option<string>, results: AnalysisResult, text: string)
    ensures var r := ResolveTitle(title, results, text);
      && (title.Some? && !IsBlank(title.value) ==> r == Strip(title.value))
      && (!(title.Some? && !IsBlank(title.value)) ==>
            var c := TitleCandidate(results, text);
            && |r| <= TitleLimit
            && IsStripped(c)
            && (c == "" ==> r == DefaultTitle)
            && (0 < |c| <= TitleLimit ==> r == c)
            && (|c| > TitleLimit ==> 3 <= |r| && r[|r| - 3..] == "..." && r[..|r| - 3] <= c[..77]))
  {
    var c := TitleCandidate(results, text);
    if |c| > TitleLimit {
      var head := RStrip(c[..77]);
      var r := head + "...";
      assert r[|r| - 3..] == "...";
      assert r[..|r| - 3] == head;
    }
  }

  /** The position of the session with that id owned by `owner` (`get_for_user`), if any. */
  function FindOwned(store: Store, sessionId: string, owner: string): (r: Option<nat>)
    ensures r.Some? ==> r.value < |store| && store[r.value].sessionId == sessionId && store[r.value].userId == owner
    ensures r.Some? ==> forall k :: 0 <= k < r.value ==> !(store[k].sessionId == sessionId && store[k].userId == owner)
    ensures r.None? <==> forall k :: 0 <= k < |store| ==> !(store[k].sessionId == sessionId && store[k].userId == owner)
    decreases |store|
  {
    if |store| == 0 then None
    else if store[0].sessionId == sessionId && store[0].userId == owner then Some(0)
    else
      match FindOwned(store[1..], sessionId, owner)
      case None =>
        assert forall k :: 1 <= k < |store| ==> store[k] == store[1..][k - 1];
        None
      case Some(k) =>
        assert forall j :: 1 <= j < |store| ==> store[j] == store[1..][j - 1];
        Some(k + 1)
  }

  /** Rewriting the found session in place, keeping its id and owner, keeps it the one found. */
  lemma FindOwnedAfterWrite(store: Store, sessionId: string, owner: string, s: StoredSession)
    requires FindOwned(store, sessionId, owner).Some?
    requires s.sessionId == sessionId && s.userId == owner
    ensures FindOwned(store[FindOwned(store, sessionId, owner).value := s], sessionId, owner) == FindOwned(store, sessionId, owner)
  {
    var i := FindOwned(store, sessionId, owner).value;
    var after := store[i := s];
    var j := FindOwned(after, sessionId, owner);
    assert after[i] == s;
  }

  /** The sessions of `owner`, in store order. */
  function Owned(store: Store, owner: string): (r: seq<StoredSession>)
    ensures forall x :: x in r <==> x in store && x.userId == owner
    ensures |r| <= |store|
    decreases |store|
  {
    if |store| == 0 then []
    else
      assert store == [store[0]] + store[1..];
      if store[0].userId == owner then [store[0]] + Owned(store[1..], owner) else Owned(store[1..], owner)
  }

  /** The sessions of every other owner, in store order. */
  function Others(store: Store, owner: string): (r: seq<StoredSession>)
    ensures forall x :: x in r <==> x in store && x.userId != owner
    decreases |store|
  {
    if |store| == 0 then []
    else
      assert store == [store[0]] + store[1..];
      if store[0].userId != owner then [store[0]] + Others(store[1..], owner) else Others(store[1..], owner)
  }

  // ---------------------------------------------------------------------------
  // Listing, reading, deleting

  /** `list_sessions`: the owner's sessions. */
  function ListSessions(store: Store, userId: Option<string>): (r: Result<seq<StoredSession>, HttpError>)
    ensures r.Err? <==> RequireUser(userId).Err?
    ensures r.Err? ==> r.error == MissingUser
    ensures r.Ok? ==> forall x :: x in r.value <==> x in store && Some(x.userId) == userId
  {
    var owner :- RequireUser(userId);
    Ok(Owned(store, owner))
  }

  /** `get_session`: the caller's session with that id; another owner's session is not found either. */
  function GetSession(store: Store, userId: Option<string>, sessionId: string): (r: Result<StoredSession, HttpError>)
    ensures RequireUser(userId).Err? ==> r == Err(MissingUser)
    ensures RequireUser(userId).Ok? ==>
      (r.Ok? <==> exists k :: 0 <= k < |store| && store[k].sessionId == sessionId && Some(store[k].userId) == userId)
    ensures r.Err? ==> r.error in {MissingUser, SessionNotFound}
    ensures r.Ok? ==> r.value in store && r.value.sessionId == sessionId && Some(r.value.userId) == userId
  {
    var owner :- RequireUser(userId);
    match FindOwned(store, sessionId, owner)
    case None => Err(SessionNotFound)
    case Some(i) => Ok(store[i])
  }

  /** `delete_session`: removes the caller's session with that id. */
  function DeleteSession(store: Store, userId: Option<string>, sessionId: string): (r: Result<Store, HttpError>)
    ensures r.Ok? <==> GetSession(store, userId, sessionId).Ok?
    ensures r.Err? ==> r.error == GetSession(store, userId, sessionId).error
  {
    var owner :- RequireUser(userId);
    match FindOwned(store, sessionId, owner)
    case None => Err(SessionNotFound)
    case Some(i) => Ok(store[..i] + store[i + 1..])
  }

  /** A delete takes out exactly the session `get_session` would return, and keeps the rest in order. */
  lemma DeleteSessionSpec(store: Store, userId: Option<string>, sessionId: string)
    requires DeleteSession(store, userId, sessionId).Ok?
    ensures var after := DeleteSession(store, userId, sessionId).value;
      var owner := userId.value;
      var i := FindOwned(store, sessionId, owner).value;
      && |after| == |store| - 1
      && store[i] == GetSession(store, userId, sessionId).value
      && (forall k :: 0 <= k < i ==> after[k] == store[k])
      && (forall k :: i < k < |store| ==> after[k - 1] == store[k])
  {
    var owner := RequireUser(userId).value;
    var i := FindOwned(store, sessionId, owner).value;
    var after := store[..i] + store[i + 1..];
    assert DeleteSession(store, userId, sessionId).value == after;
    assert GetSession(store, userId, sessionId).value == store[i];
    RemoveAt(store, i);
  }

  /** Taking out position `i` shifts everything after it down by one. */
  lemma RemoveAt<T>(s: seq<T>, i: nat)
    requires i < |s|
    ensures var r := s[..i] + s[i + 1..];
      && |r| == |s| - 1
      && (forall k :: 0 <= k < i ==> r[k] == s[k])
      && (forall k :: i < k < |s| ==> r[k - 1] == s[k])
  {
    var r := s[..i] + s[i + 1..];
    forall k | i < k < |s|
      ensures r[k - 1] == s[k]
    {
      assert r[k - 1] == s[i + 1..][k - 1 - i];
    }
  }

  // ---------------------------------------------------------------------------
  // Creating

  function UpdatedAt(s: StoredSession): real {
    s.updatedAt as real
  }

  /**
   * The `limit` most recently updated of the owner's sessions, oldest first:
   * every session left out was updated no later than every one kept.
   */
  function Newest(owned: seq<StoredSession>, limit: nat): (kept: seq<StoredSession>)
    ensures |kept| == if |owned| <= limit then |owned| else limit
    ensures multiset(kept) <= multiset(owned)
    ensures forall x, y :: x in kept && y in multiset(owned) - multiset(kept) ==> y.updatedAt <= x.updatedAt
    ensures forall i, j :: 0 <= i < j < |kept| ==> kept[i].updatedAt <= kept[j].updatedAt
  {
    var byAge := SortBy(owned, UpdatedAt);
    var n := if |owned| <= limit then 0 else |owned| - limit;
    SortBySorted(owned, UpdatedAt);
    EvictedBefore(byAge, n);
    byAge[n..]
  }

  /** Splitting a sequence sorted by update time: what comes before `n` was updated no later than what follows. */
  lemma EvictedBefore(byAge: seq<StoredSession>, n: nat)
    requires n <= |byAge|
    requires forall i, j :: 0 <= i < j < |byAge| ==> byAge[i].updatedAt <= byAge[j].updatedAt
    ensures multiset(byAge[n..]) <= multiset(byAge)
    ensures multiset(byAge) - multiset(byAge[n..]) == multiset(byAge[..n])
    ensures forall x, y :: x in byAge[n..] && y in multiset(byAge[..n]) ==> y.updatedAt <= x.updatedAt
  {
    assert byAge == byAge[..n] + byAge[n..];
    forall x, y | x in byAge[n..] && y in multiset(byAge[..n])
      ensures y.updatedAt <= x.updatedAt
    {
      var j :| n <= j < |byAge| && byAge[j] == x;
      assert y in byAge[..n];
      var i :| 0 <= i < n && byAge[i] == y;
    }
  }

  /**
   * `trim_to_limit(owner, limit)`: while the owner has more than `limit`
   * sessions, the least recently updated ones are deleted. The survivors are
   * listed after the other owners' sessions, oldest first.
   */
  function TrimToLimit(store: Store, owner: string, limit: nat): (r: Store)
    ensures Others(r, owner) == Others(store, owner)
    ensures |Owned(store, owner)| <= limit ==> r == store
    ensures |Owned(store, owner)| > limit ==> Owned(r, owner) == Newest(Owned(store, owner), limit)
    ensures |Owned(r, owner)| == if |Owned(store, owner)| <= limit then |Owned(store, owner)| else limit
  {
    var owned := Owned(store, owner);
    if |owned| <= limit then store
    else
      var kept := Newest(owned, limit);
      KeptOwned(owned, kept, owner);
      OwnedOfSplit(Others(store, owner), kept, owner);
      Others(store, owner) + kept
  }

  /** What is kept of the owner's sessions is the owner's. */
  lemma KeptOwned(owned: seq<StoredSession>, kept: seq<StoredSession>, owner: string)
    requires multiset(kept) <= multiset(owned)
    requires forall x :: x in owned ==> x.userId == owner
    ensures forall x :: x in kept ==> x.userId == owner
  {
    forall x | x in kept
      ensures x.userId == owner
    {
      assert x in multiset(kept);
      assert x in multiset(owned);
    }
  }

  /** Owned and others of another owner's sessions followed by `owner`'s own. */
  lemma OwnedOfSplit(others: Store, mine: Store, owner: string)
    requires forall x :: x in others ==> x.userId != owner
    requires forall x :: x in mine ==> x.userId == owner
    ensures Owned(others + mine, owner) == mine
    ensures Others(others + mine, owner) == others
  {
    OwnedAppend(others, mine, owner);
    AllOthers(others, owner);
    AllOwned(mine, owner);
  }

  /** Owned and others of a concatenation are those of its parts, concatenated. */
  lemma OwnedAppend(a: Store, b: Store, owner: string)
    ensures Owned(a + b, owner) == Owned(a, owner) + Owned(b, owner)
    ensures Others(a + b, owner) == Others(a, owner) + Others(b, owner)
  {
    OwnedOfAppend(a, b, owner);
    OthersOfAppend(a, b, owner);
  }

  lemma {:induction false} OwnedOfAppend(a: Store, b: Store, owner: string)
    ensures Owned(a + b, owner) == Owned(a, owner) + Owned(b, owner)
    decreases |a|
  {
    if |a| > 0 {
      var ab := a + b;
      assert ab[1..] == a[1..] + b;
      assert ab[0] == a[0];
      OwnedOfAppend(a[1..], b, owner);
      if a[0].userId == owner {
        assert Owned(ab, owner) == [a[0]] + Owned(ab[1..], owner);
        assert Owned(a, owner) == [a[0]] + Owned(a[1..], owner);
        Seqs.AppendAssoc([a[0]], Owned(a[1..], owner), Owned(b, owner));
      } else {
        assert Owned(ab, owner) == Owned(ab[1..], owner);
        assert Owned(a, owner) == Owned(a[1..], owner);
      }
    } else {
      assert a + b == b;
    }
  }

  lemma {:induction false} OthersOfAppend(a: Store, b: Store, owner: string)
    ensures Others(a + b, owner) == Others(a, owner) + Others(b, owner)
    decreases |a|
  {
    if |a| > 0 {
      var ab := a + b;
      assert ab[1..] == a[1..] + b;
      assert ab[0] == a[0];
      OthersOfAppend(a[1..], b, owner);
      if a[0].userId == owner {
        assert Others(ab, owner) == Others(ab[1..], owner);
        assert Others(a, owner) == Others(a[1..], owner);
      } else {
        assert Others(ab, owner) == [a[0]] + Others(ab[1..], owner);
        assert Others(a, owner) == [a[0]] + Others(a[1..], owner);
        Seqs.AppendAssoc([a[0]], Others(a[1..], owner), Others(b, owner));
      }
    } else {
      assert a + b == b;
    }
  }

  lemma {:induction false} AllOthers(s: Store, owner: string)
    requires forall x :: x in s ==> x.userId != owner
    ensures Owned(s, owner) == [] && Others(s, owner) == s
    decreases |s|
  {
    if |s| > 0 {
      assert forall x :: x in s[1..] ==> x in s;
      AllOthers(s[1..], owner);
      assert s == [s[0]] + s[1..];
    }
  }

  lemma {:induction false} AllOwned(s: Store, owner: string)
    requires forall x :: x in s ==> x.userId == owner
    ensures Owned(s, owner) == s && Others(s, owner) == []
    decreases |s|
  {
    if |s| > 0 {
      assert forall x :: x in s[1..] ==> x in s;
      AllOwned(s[1..], owner);
      assert s == [s[0]] + s[1..];
    }
  }

  /**
   * `create_session`: the analysis runs first, so a refused request changes
   * nothing; then, with a positive cap, the owner's oldest sessions are
   * dropped to make room, and the new session is added at the end.
   */
  function CreateSession(store: Store, userId: Option<string>, title: Option<string>, text: string, category: int,
                         choices: seq<int>, svc: Service, sessionId: string, now: int)
    : (r: Result<Saved, HttpError>)
  {
    var owner :- RequireUser(userId);
    var results :- RunAnalysis(svc, text, category, choices);
    var trimmed := if svc.maxSessions > 0 then TrimToLimit(store, owner, svc.maxSessions - 1) else store;
    var session := StoredSession(sessionId, owner, ResolveTitle(title, results, text), text, category, choices,
                                 results, InitialVersion, now, now);
    Ok(Saved(trimmed + [session], session))
  }

  lemma OwnedSnoc(store: Store, s: StoredSession, owner: string)
    ensures Owned(store + [s], owner) == Owned(store, owner) + (if s.userId == owner then [s] else [])
    ensures Others(store + [s], owner) == Others(store, owner) + (if s.userId != owner then [s] else [])
  {
    OwnedAppend(store, [s], owner);
    assert [s][1..] == [];
  }

  /**
   * A create fails exactly on a missing user or a refused analysis; on
   * success the new session is the owner's last, carries the request and the
   * analysis, starts at version 0 with equal creation and update times, and with a positive
   * cap the owner has at most that many sessions while every other owner's
   * sessions are untouched.
   */
  lemma CreateSessionSpec(store: Store, userId: Option<string>, title: Option<string>, text: string, category: int,
                          choices: seq<int>, svc: Service, sessionId: string, now: int)
    ensures var r := CreateSession(store, userId, title, text, category, choices, svc, sessionId, now);
      && (RequireUser(userId).Err? ==> r == Err(MissingUser))
      && (RequireUser(userId).Ok? && RunAnalysis(svc, text, category, choices).Err? ==>
            r == Err(RunAnalysis(svc, text, category, choices).error))
      && (r.Ok? <==> RequireUser(userId).Ok? && RunAnalysis(svc, text, category, choices).Ok?)
      && (r.Ok? ==>
            var owner := userId.value;
            var s := r.value.session;
            && s.userId == owner && s.sessionId == sessionId && s.text == text
            && s.categoryIndex == category && s.choiceIndexes == choices
            && s.results == RunAnalysis(svc, text, category, choices).value
            && s.title == ResolveTitle(title, s.results, text)
            && s.version == 0 && s.insertedAt == now == s.updatedAt
            && Others(r.value.store, owner) == Others(store, owner)
            && IsNewest(r.value.store, owner, s)
            && (svc.maxSessions > 0 ==> |Owned(r.value.store, owner)| <= svc.maxSessions))
  {
    match RequireUser(userId)
    case Err(_) =>
    case Ok(owner) =>
      match RunAnalysis(svc, text, category, choices)
      case Err(_) =>
      case Ok(results) =>
        var trimmed := if svc.maxSessions > 0 then TrimToLimit(store, owner, svc.maxSessions - 1) else store;
        var session := StoredSession(sessionId, owner, ResolveTitle(title, results, text), text, category, choices,
                                     results, InitialVersion, now, now);
        var after := trimmed + [session];
        assert CreateSession(store, userId, title, text, category, choices, svc, sessionId, now)
          == Ok(Saved(after, session));
        TrimThenAppend(store, trimmed, owner, svc.maxSessions, session);
  }

  /** `s` is the last of `owner`'s sessions in store order. */
  predicate IsNewest(store: Store, owner: string, s: StoredSession) {
    |Owned(store, owner)| > 0 && Owned(store, owner)[|Owned(store, owner)| - 1] == s
  }

  /** Trimming to one below a positive cap and appending leaves the owner within the cap, newest last. */
  lemma TrimThenAppend(store: Store, trimmed: Store, owner: string, cap: int, session: StoredSession)
    requires trimmed == if cap > 0 then TrimToLimit(store, owner, cap - 1) else store
    requires session.userId == owner
    ensures Others(trimmed + [session], owner) == Others(store, owner)
    ensures IsNewest(trimmed + [session], owner, session)
    ensures cap > 0 ==> |Owned(trimmed + [session], owner)| <= cap
  {
    OwnedSnoc(trimmed, session, owner);
  }

  // ---------------------------------------------------------------------------
  // Updating

  /** The requested changes; `None` leaves a field as stored. */
  datatype Changes = Changes(
    title: Option<string>,
    text: Option<string>,
    category: Option<int>,
    choices: Option<seq<int>>,
    version: Option<int>)

  predicate Reanalyses(c: Changes) {
    c.text.Some? || c.category.Some? || c.choices.Some?
  }

  /** The stripped title when one is given and differs from the stored one. */
  function Renaming(s: StoredSession, c: Changes): (r: Result<Option<string>, HttpError>)
    ensures r.Err? <==> c.title.Some? && IsBlank(c.title.value)
    ensures r.Err? ==> r.error == InvalidTitle
    ensures r.Ok? && r.value.Some? <==> c.title.Some? && !IsBlank(c.title.value) && Strip(c.title.value) != s.title
    ensures r.Ok? && r.value.Some? ==> r.value.value == Strip(c.title.value)
  {
    if c.title.None? then Ok(None)
    else
      var normalized := Strip(c.title.value);
      if normalized == "" then Err(InvalidTitle)
      else if normalized != s.title then Ok(Some(normalized))
      else Ok(None)
  }

  /** The text, category and choices a re-analysis uses: the given ones, falling back to the stored ones. */
  function NewText(s: StoredSession, c: Changes): string {
    if c.text.Some? then c.text.value else s.text
  }

  function NewCategory(s: StoredSession, c: Changes): int {
    if c.category.Some? then c.category.value else s.categoryIndex
  }

  function NewChoices(s: StoredSession, c: Changes): seq<int> {
    if c.choices.Some? then c.choices.value else s.choiceIndexes
  }

  /** The stored session after the rename and the re-analysis, before the version bump. */
  function Changed(s: StoredSession, c: Changes, svc: Service): Result<StoredSession, HttpError> {
    var renamed :- Renaming(s, c);
    var s1 := if renamed.Some? then s.(title := renamed.value) else s;
    if !Reanalyses(c) then
      if renamed.None? then Err(NothingToUpdate) else Ok(s1)
    else
      var text := NewText(s, c);
      var results :- RunAnalysis(svc, text, NewCategory(s, c), NewChoices(s, c));
      var s2 := s1.(text := text, categoryIndex := NewCategory(s, c), choiceIndexes := NewChoices(s, c),
                    results := results);
      if c.title.None? then Ok(s2.(title := ResolveTitle(None, results, text))) else Ok(s2)
  }

  /** `update_session`. */
  function UpdateSession(store: Store, userId: Option<string>, sessionId: string, c: Changes, svc: Service, now: int)
    : (r: Result<Saved, HttpError>)
  {
    var owner :- RequireUser(userId);
    match FindOwned(store, sessionId, owner)
    case None => Err(SessionNotFound)
    case Some(i) =>
      if c.version.Some? && c.version.value != store[i].version then Err(StaleVersion)
      else
        var s :- Changed(store[i], c, svc);
        var s' := s.(version := store[i].version + 1, updatedAt := now);
        Ok(Saved(store[i := s'], s'))
  }

  /** The checks after the version: the title, the re-analysis, and whether anything changes at all. */
  lemma ChangedErrors(s: StoredSession, c: Changes, svc: Service)
    ensures var r := Changed(s, c, svc);
      && (c.title.Some? && IsBlank(c.title.value) ==> r == Err(InvalidTitle))
      && (!Reanalyses(c) && (c.title.None? || (!IsBlank(c.title.value) && Strip(c.title.value) == s.title)) ==>
            r == Err(NothingToUpdate))
      && (!Reanalyses(c) && c.title.Some? && Strip(c.title.value) != s.title && !IsBlank(c.title.value) ==> r.Ok?)
      && (Reanalyses(c) && !(c.title.Some? && IsBlank(c.title.value)) ==>
            (r.Err? <==> RunAnalysis(svc, NewText(s, c), NewCategory(s, c), NewChoices(s, c)).Err?))
  {
  }

  /** The checks before the changes: the user, the session and, when one is supplied, the version. */
  lemma UpdateSessionErrors(store: Store, userId: Option<string>, sessionId: string, c: Changes, svc: Service, now: int)
    ensures var r := UpdateSession(store, userId, sessionId, c, svc, now);
      && (RequireUser(userId).Err? ==> r == Err(MissingUser))
      && (RequireUser(userId).Ok? && GetSession(store, userId, sessionId).Err? ==> r == Err(SessionNotFound))
      && (GetSession(store, userId, sessionId).Ok? ==>
            var s := GetSession(store, userId, sessionId).value;
            && (c.version.Some? && c.version.value != s.version ==> r == Err(StaleVersion))
            && (c.version.None? || c.version.value == s.version ==>
                  (r.Err? <==> Changed(s, c, svc).Err?) && (r.Err? ==> r.error == Changed(s, c, svc).error)))
  {
  }

  /**
   * A successful update rewrites only the one session, in place: its version is
   * the stored one plus one (the supplied one plus one when given), its update
   * time is now, identity and creation time are kept; a re-analysis stores the
   * fallback request and its result, a rename stores the stripped title, and
   * without a title a re-analysis re-derives it.
   */
  lemma UpdateSessionSpec(store: Store, userId: Option<string>, sessionId: string, c: Changes, svc: Service, now: int)
    requires UpdateSession(store, userId, sessionId, c, svc, now).Ok?
    ensures GetSession(store, userId, sessionId).Ok?
    ensures var saved := UpdateSession(store, userId, sessionId, c, svc, now).value;
      var old_ := GetSession(store, userId, sessionId).value;
      var new_ := saved.session;
      var i := FindOwned(store, sessionId, userId.value).value;
      && saved.store == store[i := new_]
      && new_.version == old_.version + 1
      && (c.version.Some? ==> new_.version == c.version.value + 1)
      && new_.updatedAt == now
      && new_.sessionId == old_.sessionId && new_.userId == old_.userId && new_.insertedAt == old_.insertedAt
      && (c.title.Some? ==> new_.title == Strip(c.title.value))
      && (!Reanalyses(c) ==>
            && new_.text == old_.text && new_.categoryIndex == old_.categoryIndex
            && new_.choiceIndexes == old_.choiceIndexes && new_.results == old_.results
            && new_.title != old_.title)
      && (Reanalyses(c) ==>
            && new_.text == NewText(old_, c) && new_.categoryIndex == NewCategory(old_, c)
            && new_.choiceIndexes == NewChoices(old_, c)
            && RunAnalysis(svc, new_.text, new_.categoryIndex, new_.choiceIndexes) == Ok(new_.results)
            && (c.title.None? ==> new_.title == ResolveTitle(None, new_.results, new_.text)))
  {
  }

  /** Replaying an update with the version it was made against is refused once it has succeeded. */
  lemma UpdateIsCompareAndSwap(store: Store, userId: Option<string>, sessionId: string, c: Changes, svc: Service,
                               now: int, c': Changes, now': int)
    requires UpdateSession(store, userId, sessionId, c, svc, now).Ok?
    requires c'.version == Some(GetSession(store, userId, sessionId).value.version)
    ensures UpdateSession(UpdateSession(store, userId, sessionId, c, svc, now).value.store, userId, sessionId, c', svc, now')
      == Err(StaleVersion)
  {
    UpdateSessionSpec(store, userId, sessionId, c, svc, now);
    var saved := UpdateSession(store, userId, sessionId, c, svc, now).value;
    FindOwnedAfterWrite(store, sessionId, userId.value, saved.session);
  }
}
