# Session stores, analysis and translation: a Dafny model

This project models the core of a two-part service in Dafny 4.11.

The first part is a **text summarization service** (`auto_summarization`):
- users own versioned analysis sessions;
- a session's text is analysed by a language model and keyword heuristics into entities, sentiment, classification and summaries;
- sessions are searched by word overlap and sequence similarity;
- documents are turned into cleaned text.

The second part is a **chat translation service** (`chat-translation`):
- users own versioned translation sessions;
- a two-step pipeline (language detection, then translation) produces each translation;
- the set of language-pair models is configured from folders and settings.

A small `dotenv` parser completes the core.

Every store is an immutable value: a map from user id to user, or a sequence of rows in insertion order. Every handler is a pure function from the old store and the request to either an error or the new store plus the response. Each update of a session is a compare-and-swap on its version number. The lemmas prove the following:
- a stale version is refused;
- a successful update raises the version by one and touches nothing else;
- deletes are exact and idempotent;
- listing trims to the configured cap;
- search results are a stable ranking;
- parsing and rendering round-trip.

Collaborators the code calls are parameters of the model: the language model, the zero-shot classifier, translators, the language detector, the clock and `uuid4`.

| file | module | models |
|---|---|---|
| wrappers.dfy | `Wrappers` | `Option` and `Result` |
| http.dfy | `Http` | the HTTP errors the services raise |
| strings.dfy | `Strings` | Python string methods: `strip`, `split`, `splitlines`, `lower`, `in`, `count`, `str(n)` |
| seqs.dfy | `Seqs` | `dict.fromkeys`, `setdefault`, dict comprehensions, `sorted` on integer keys |
| sorting.dfy | `Sorting` | stable `sorted(key=…)` and string ordering |
| ranking.dfy | `Ranking` | "keep positive scores, sort descending, take the first n" |
| similarity.dfy | `Similarity` | the two `_match_score` functions |
| templates.dfy | `Templates` | the analysis templates table and its category and choice lists |
| prompt.dfy | `Prompt` | the token estimate, the context-window budget, label normalisation |
| analysis.dfy | `Analysis` | `handlers/analysis.py`: rendering prompts and `perform_analysis` |
| text_processing.dfy | `TextProcessing` | keyword heuristics, sentence splitting, summaries |
| analyze_service.dfy | `AnalyzeService` | the analysis types and `AnalyzeService.analyse` |
| summary_analysis.dfy | `SummaryAnalysis` | `_generate_analysis` of the summarization session handlers |
| summary_sessions.dfy | `SummarySessions` | the summarization session handlers |
| session_service.dfy | `SessionService` | `SessionService` |
| user_service.dfy | `UserService` | the domain `User` and `UserService` |
| document_service.dfy | `DocumentService` | format checks and line cleaning of `DocumentService` |
| chat_config.dfy | `ChatConfig` | translation settings: extensions, language titles, model registration |
| chat_processor.dfy | `ChatProcessor` | the detector and translator processors |
| chat_sessions.dfy | `ChatSessions` | the translation session handlers |
| chat_users.dfy | `ChatUsers` | the translation user handlers |
| dotenv.dfy | `Dotenv` | `dotenv_values` and `load_dotenv` |

## Model

| member | source | states |
|---|---|---|
| SessionService.DefaultService | src/auto_summarization/services/session_service.py:19-21 | the default service analyses through `AnalyzeService.analyse` over the given analysis types and collaborators |
| SessionService.RequireUser | src/auto_summarization/services/session_service.py:140-143 | a missing or empty user id is refused with the 401 error, and any other id is returned unchanged |
| SessionService.ResolveTitle | src/auto_summarization/services/session_service.py:155-168 | the resolved title is never empty |
| SessionService.ResolveTitleSpec | src/auto_summarization/services/session_service.py:155-168 | a non-blank title is used stripped; otherwise the stripped short summary or text is used, cut to 77 characters plus "..." when longer than 80, and the default title when empty |
| SessionService.FindOwned | src/auto_summarization/services/session_service.py:67 | `get_for_user` finds the first session with this id and this owner, and finds nothing exactly when there is none |
| SessionService.FindOwnedAfterWrite | src/auto_summarization/services/session_service.py:86-128 | rewriting the found session in place with the same id and owner keeps it findable at the same position |
| SessionService.Owned | src/auto_summarization/services/session_service.py:27 | `list_for_user` returns exactly the owner's sessions |
| SessionService.Others | src/auto_summarization/services/session_service.py:46-47 | the sessions of every other owner, which the per-owner cap leaves alone |
| SessionService.ListSessions | src/auto_summarization/services/session_service.py:23-28 | listing fails only for a missing user, and otherwise returns exactly that user's sessions |
| SessionService.GetSession | src/auto_summarization/services/session_service.py:63-70 | a missing user is refused first; otherwise the result is the owner's session with that id, or "not found" |
| SessionService.DeleteSession | src/auto_summarization/services/session_service.py:131-138 | a delete succeeds exactly when `get_session` would, and fails with the same error otherwise |
| SessionService.DeleteSessionSpec | src/auto_summarization/services/session_service.py:131-138 | a delete removes exactly the session `get_session` returns and keeps every other session in order |
| SessionService.TrimToLimit | src/auto_summarization/services/session_service.py:46-47 | `trim_to_limit` leaves the store alone when the owner is within the limit; otherwise it evicts the owner's least recently updated sessions, so every survivor was updated no earlier than every evicted one and exactly the limit remain; other owners' sessions are untouched |
| SessionService.Newest | src/auto_summarization/services/session_service.py:46-47 | the survivors of a trim are `limit` of the owner's sessions (all of them when within the limit), taken from them, oldest first, and every session left out was updated no later than every survivor |
| SessionService.EvictedBefore | src/auto_summarization/services/session_service.py:46-47 | in a list ordered by update time, the dropped front is exactly what the kept rest lacks, and none of it was updated later than anything kept |
| SessionService.KeptOwned | src/auto_summarization/services/session_service.py:46-47 | survivors chosen from the owner's sessions all belong to the owner |
| SessionService.OwnedOfAppend | src/auto_summarization/services/session_service.py:27 | the owner's sessions of two joined lists are the owner's sessions of each, in order |
| SessionService.OthersOfAppend | src/auto_summarization/services/session_service.py:46-47 | the other owners' sessions of two joined lists are those of each, in order |
| SessionService.OwnedOfSplit | src/auto_summarization/services/session_service.py:46-47 | after a trim, the owner's sessions are exactly the survivors and the other owners' sessions are as they were |
| SessionService.CreateSessionSpec | src/auto_summarization/services/session_service.py:30-61 | create fails exactly for a missing user or a failed analysis; on success the new session carries the request, the analysis and the resolved title, starts at version 0 with equal creation and update times, is the owner's newest, keeps the owner within the cap, and leaves other owners untouched |
| SessionService.TrimThenAppend | src/auto_summarization/services/session_service.py:46-58 | trimming to cap-1 and then adding the new session keeps other owners untouched, makes the new session the newest and keeps the owner within the cap |
| SessionService.Renaming | src/auto_summarization/services/session_service.py:95-101 | a blank title is refused with 400; a rename happens exactly when the stripped title differs from the stored title |
| SessionService.ChangedErrors | src/auto_summarization/services/session_service.py:93-124 | blank title gives 400; no re-analysis and no new title gives "nothing to update"; a re-analysis fails exactly when the analysis does |
| SessionService.UpdateSessionErrors | src/auto_summarization/services/session_service.py:83-91 | the checks run in order: missing user, then unknown session, then a supplied version that differs from the stored one (409) |
| SessionService.UpdateSessionSpec | src/auto_summarization/services/session_service.py:72-129 | a successful update rewrites only that session and increments its version; it keeps id, owner and creation time and stores the stripped title or the re-analysis with the fallback fields |
| SessionService.UpdateIsCompareAndSwap | src/auto_summarization/services/session_service.py:90-91 | once an update succeeds, a second update supplying the old version is refused as stale |
| SummarySessions.FindSession | src/auto_summarization/services/handlers/session.py:456 | the lookup finds the first session with the id, and finds none exactly when no session carries it |
| SummarySessions.RemoveSession | src/auto_summarization/services/handlers/session.py:584 | removal drops exactly the sessions with the id, keeps the others, and shortens the list exactly when one was there |
| SummarySessions.SessionToDict | src/auto_summarization/services/handlers/session.py:338-357 | the short view, and only it, leaves out the text and the content |
| SummarySessions.FullViewRoundTrip | src/auto_summarization/services/handlers/session.py:338-353 | the full view loses nothing: the session reads back from it |
| SummarySessions.ShortViewKeeps | src/auto_summarization/services/handlers/session.py:354-356 | the short view keeps everything but the text and the content |
| SummarySessions.GetSessionList | src/auto_summarization/services/handlers/session.py:360-370 | an unknown user gets no views; a known one gets the full views of its first sessions, never more than the session limit |
| SummarySessions.ValidateTextLength | src/auto_summarization/services/handlers/session.py:641-646 | a text passes exactly when it is non-empty and at most the limit long (the limit itself included); an empty text and a too long one each get their own error |
| SummarySessions.NewTitle | src/auto_summarization/services/handlers/session.py:405 | a non-blank title is used stripped; otherwise the title is at most 40 characters, a prefix of the short summary or of the text, and never empty for a non-empty text |
| SummarySessions.CreateErrors | src/auto_summarization/services/handlers/session.py:373-399 | creation fails for a missing or too long text first, and otherwise exactly when the analysis fails |
| SummarySessions.CreateStores | src/auto_summarization/services/handlers/session.py:401-437 | a created session is appended to its owner's list, which starts empty for an owner created on the spot; it has version 0, equal creation and update times, the generated texts and the title rule; no other user changes |
| SummarySessions.Target | src/auto_summarization/services/handlers/session.py:452-460 | an update is refused for an unknown user, then for an unknown session, then for a stored version different from the supplied one, and otherwise works on the first session with the id |
| SummarySessions.CommitScope | src/auto_summarization/services/handlers/session.py:483-491 | a committed update changes only the owner's one session and last use; the other sessions, their order and every other user stay |
| SummarySessions.UpdateSummarizationSpec | src/auto_summarization/services/handlers/session.py:440-500 | a re-analysis is refused for a bad text, an unknown user, an unknown session and a stale version, in that order; on success the version is the supplied one plus one and only the texts and the update time of that session change |
| SummarySessions.UpdateTitleSpec | src/auto_summarization/services/handlers/session.py:503-527 | a renaming is refused for an unknown user, an unknown session or a stale version; otherwise only title, version (supplied plus one) and update time change, and the full view of the new session is returned |
| SummarySessions.UpdatesKeepVersionsNatural | src/auto_summarization/services/handlers/session.py:488 | an update that raises the version by one keeps every stored version a natural number |
| SummarySessions.DeleteSpec | src/auto_summarization/services/handlers/session.py:578-590 | deletion succeeds exactly when the user exists and has a session with the id; afterwards no such session is left; a failure changes nothing |
| SummarySessions.DeleteTwice | src/auto_summarization/services/handlers/session.py:578-590 | deleting the same session a second time reports an error |
| SummarySessions.DeleteKeepsVersionsNatural | src/auto_summarization/services/handlers/session.py:584 | deletion keeps every stored version a natural number |
| SummarySessions.SearchRefusals | src/auto_summarization/services/handlers/session.py:593-601 | a blank query is refused first, an unknown user next, and every other search succeeds |
| SummarySessions.SearchViews | src/auto_summarization/services/handlers/session.py:620-628 | the results are the short views of the ranked sessions, in rank order, never more than the session limit |
| SummarySessions.SearchRankingSpec | src/auto_summarization/services/handlers/session.py:602-626 | the ranked sessions are the user's own with positive match score, best first, ties in stored order, capped at the limit, none left out scoring above one kept, each scored by its blob against the query |
| Ranking.Positive | src/auto_summarization/services/handlers/session.py:621-625 | the kept entries are items scoring above zero, each with its own score, and every item scoring above zero is kept |
| Ranking.RankedOrder | src/auto_summarization/services/handlers/session.py:626-627 | the ranked entries are in non-increasing score order |
| Ranking.RankedTies | src/auto_summarization/services/handlers/session.py:626 | entries with equal scores keep their insertion order |
| Ranking.RankedKeepsBest | src/auto_summarization/services/handlers/session.py:626-627 | no positive entry left out by the cap scores above one that was kept |
| Ranking.RankSpec | src/chat-translation/services/handlers/session.py:335-351 | filtering out non-positive scores, sorting by descending score stably and cutting to the cap yields at most the cap entries of the items scoring above zero, best first, ties in insertion order, none left out scoring above one kept |
| Sorting.Insert | src/auto_summarization/domain/analyze_type.py:40 | inserting adds exactly the one element |
| Sorting.SortBy | src/auto_summarization/domain/analyze_type.py:40 | sorting keeps the elements: a permutation of the input |
| Sorting.InsertSorted | src/auto_summarization/domain/analyze_type.py:40 | inserting into a sorted list keeps it sorted |
| Sorting.InsertWithKey | src/auto_summarization/domain/analyze_type.py:40 | the inserted element goes before its equals, so the elements of each key keep their order |
| Sorting.SortByIsStable | src/auto_summarization/domain/analyze_type.py:40 | the sort is ordered by key, a permutation of the input, and the elements sharing a key keep their relative order |
| Sorting.SortBySorted | src/auto_summarization/services/analyze_service.py:22 | the sorted list is ordered by key |
| Sorting.StrLeTotal | src/auto_summarization/services/utils/text_processing.py:182 | any two strings are comparable by code point |
| Sorting.StrLeTransitive | src/auto_summarization/services/utils/text_processing.py:182 | the code point order on strings is transitive |
| Sorting.SortStrings | src/auto_summarization/services/utils/text_processing.py:182 | sorting strings keeps them: a permutation of the input |
| Sorting.SortStringsSorted | src/auto_summarization/services/utils/text_processing.py:182 | sorted strings are in code point order |
| Similarity.Overlap | src/auto_summarization/services/handlers/session.py:50 | the share of query tokens found lies in [0, 1], is 1 exactly when every query token is found, and is positive exactly when one is |
| Similarity.NormalizeText | src/auto_summarization/services/handlers/session.py:34-37 | the normal form is empty exactly when the value is blank, and has the same words as the lower-cased value |
| Similarity.MatchScore | src/auto_summarization/services/handlers/session.py:40-51 | the score lies in [0, 1] |
| Similarity.MatchScoreSpec | src/auto_summarization/services/handlers/session.py:40-51 | a blank blob or query scores 0; otherwise the query has tokens and the score is the larger of the matcher ratio and the share of the query's lower-cased words found among the blob's |
| Similarity.MatchScorePositive | src/auto_summarization/services/handlers/session.py:40-51 | the score is positive exactly when both sides are non-blank and either the ratio is positive or some word occurs in both |
| Similarity.ChatMatchScore | src/chat-translation/services/handlers/session.py:373-383 | the score lies in [0, 1] |
| Similarity.ChatMatchScoreEdges | src/chat-translation/services/handlers/session.py:374-379 | empty text or query scores 0; a substring hit of the stripped lower-cased query scores 1 |
| Similarity.ChatMatchScorePositive | src/chat-translation/services/handlers/session.py:373-383 | the score is positive exactly when text and query are non-empty and the query is a substring or shares a word with the text |
| Similarity.ChatMatchScoreAllWords | src/chat-translation/services/handlers/session.py:380-383 | a query all of whose words occur in the text scores 1 |
| Similarity.ChatBlankQueryScoresOne | src/chat-translation/services/handlers/session.py:376-379 | a non-empty whitespace-only query is stripped to "", which is in any text, so it scores 1 |
| Prompt.EstimateTokenLength | src/auto_summarization/services/handlers/session.py:93-99 | the estimate is 0 exactly for empty text, and otherwise is the number of four-character blocks, rounded up, never more than the length |
| Prompt.EstimateFitsBudget | src/auto_summarization/services/handlers/session.py:93-99 | text whose estimate fits a budget has at most four characters per budgeted token |
| Prompt.SafeWindow | src/auto_summarization/services/handlers/session.py:137 | the safe window is at least 512 and, unless it is 512, four fifths of the window rounded down |
| Prompt.SanitizePromptText | src/auto_summarization/services/handlers/session.py:127-151 | the only failure is the condenser's, raised for non-empty text under a positive window |
| Prompt.SanitizeBound | src/auto_summarization/services/handlers/session.py:127-151 | whatever the condenser returns, a positive window bounds the prompt by four characters per safe token; the prompt is empty only for empty input; text under a non-positive window, or text that already fits, comes back unchanged |
| Prompt.FirstMentioned | src/auto_summarization/services/handlers/session.py:193-195 | the index found is that of the first mentioned candidate, or the length when none is mentioned |
| Prompt.NormalizeLabel | src/auto_summarization/services/handlers/session.py:187-196 | with no candidates the stripped output comes back; otherwise the label is always one of the candidates |
| Prompt.NormalizeLabelSpec | src/auto_summarization/services/handlers/session.py:187-196 | the label is the first candidate whose lower case occurs in the stripped, lower-cased output, and the first candidate when none does |
| Templates.NamesByIndexSpec | src/auto_summarization/services/handlers/analysis.py:103-110 | one name per distinct index, the indices being exactly those of the rows, each name taken from the first row carrying its index |
| Templates.CategoryKeys | src/auto_summarization/services/handlers/analysis.py:106-108 | the category indices are increasing, each distinct index of the rows once |
| Templates.CategoryNames | src/auto_summarization/services/handlers/analysis.py:106-108 | the category names follow the increasing indices, each from the first row with its index |
| Templates.ChoiceKeys | src/auto_summarization/services/handlers/analysis.py:107-109 | the choice indices are increasing, each distinct index of the rows once |
| Templates.ChoiceNames | src/auto_summarization/services/handlers/analysis.py:107-109 | the choice names follow the increasing indices, each from the first row with its index |
| TextProcessing.Unique | src/auto_summarization/services/utils/text_processing.py:20-28 | the loop with the list of values seen so far computes the reference de-duplication of the stripped values |
| TextProcessing.UniqueByMembers | src/auto_summarization/services/utils/text_processing.py:24-27 | every kept value is non-empty and is the cleaning of some input, and every non-empty cleaning of an input is kept |
| TextProcessing.UniqueByDistinct | src/auto_summarization/services/utils/text_processing.py:25 | no value is kept twice |
| TextProcessing.UniqueByOrder | src/auto_summarization/services/utils/text_processing.py:23-27 | kept values appear in the order of their first occurrences in the input |
| TextProcessing.UniqueSpec | src/auto_summarization/services/utils/text_processing.py:20-28 | the result is distinct, stripped and non-empty, holds exactly the strips of the non-blank inputs, in order of first occurrence |
| TextProcessing.KeywordScorePositive | src/auto_summarization/services/utils/text_processing.py:94-95 | a sum of keyword counts is positive exactly when one of the (non-empty) keywords occurs |
| TextProcessing.KeywordsIn | src/auto_summarization/services/utils/text_processing.py:96 | the hits are keywords that occur, and every occurring keyword is a hit |
| TextProcessing.KeywordsInOrder | src/auto_summarization/services/utils/text_processing.py:96 | for a list without repeats, the hits keep the list's order |
| TextProcessing.AnalyseSentiment | src/auto_summarization/services/utils/text_processing.py:92-114 | the polarity is positive, negative or neutral exactly as the positive score exceeds, falls below or equals the negative one, and the toxicity flag is set exactly when there are toxic hits |
| TextProcessing.SentimentSpec | src/auto_summarization/services/utils/text_processing.py:92-114 | each score is positive exactly when one of its keywords occurs in the lower-cased text; the toxic keywords reported are exactly the occurring ones, in list order |
| TextProcessing.CategoryLabels | src/auto_summarization/services/utils/text_processing.py:150-174 | a known category offers its five labels, any other the three default topics |
| TextProcessing.HeuristicClassification | src/auto_summarization/services/utils/text_processing.py:177-193 | the matched keywords are never empty |
| TextProcessing.MatchedKeywords | src/auto_summarization/services/utils/text_processing.py:180-182 | the distinct matches, sorted, are exactly the occurring keywords, in order |
| TextProcessing.HeuristicSpec | src/auto_summarization/services/utils/text_processing.py:177-193 | with no keyword of the category in the text the label and the only keyword are the general topic; otherwise the label is the category and the matched keywords are exactly the occurring ones, sorted |
| TextProcessing.HeuristicNamesCategory | src/auto_summarization/services/utils/text_processing.py:190 | for a category other than the general topic, the label is the category exactly when one of its keywords occurs |
| TextProcessing.ModelVerdict | src/auto_summarization/services/utils/text_processing.py:280-289 | a model is consulted exactly for the "universal" and "pretrained" model types, and its verdict is never labelled heuristic |
| TextProcessing.ClassifyText | src/auto_summarization/services/utils/text_processing.py:271-296 | the payload echoes category, model type and prompt and always carries the heuristic's matched keywords |
| TextProcessing.ClassifyTextDispatch | src/auto_summarization/services/utils/text_processing.py:280-294 | the heuristic verdict stands exactly when no model was asked or the model failed; a warning with the failure's message is recorded exactly when it failed; a model verdict carries the labels it was offered |
| TextProcessing.Pieces | src/auto_summarization/services/utils/text_processing.py:300 | splitting at whitespace runs after '.', '!' or '?' gives at least one piece, none holding such a break, all made of the text's characters |
| TextProcessing.PiecesCover | src/auto_summarization/services/utils/text_processing.py:300 | the character at any non-space position of the text occurs in some piece (by value; positions are stated by `PiecesAreSlices`) |
| TextProcessing.PiecesAreSlices | src/auto_summarization/services/utils/text_processing.py:300 | the pieces are consecutive slices `s[a_k..b_k]` of the text with increasing bounds, the first starting at 0 and the last ending at the text's length, and between each two neighbours lies a whole whitespace run that follows '.', '!' or '?' (`SplitAt`) |
| TextProcessing.PiecesUnique | src/auto_summarization/services/utils/text_processing.py:300 | any split of the text into break-free slices separated by such whole runs is exactly the pieces: matches are found leftmost first and each as long as it can be |
| TextProcessing.PiecesFrom | src/auto_summarization/services/utils/text_processing.py:300 | from piece `j` on, such a split equals the pieces of the text from where piece `j` starts |
| TextProcessing.InnerPieceStep | src/auto_summarization/services/utils/text_processing.py:300 | a break-free slice ended by a whole run after a stop, followed by the pieces after the run, is the pieces of the text from the slice's start |
| TextProcessing.SplitSentencesShape | src/auto_summarization/services/utils/text_processing.py:299-301 | every sentence is non-empty, stripped and holds no sentence break |
| TextProcessing.SplitSentencesEmptyIffBlank | src/auto_summarization/services/utils/text_processing.py:299-301 | there are no sentences exactly when the text is blank |
| TextProcessing.ShortSummarySpec | src/auto_summarization/services/utils/text_processing.py:304-307 | a blank text gives the prompt; otherwise the summary is the first one or two sentences joined by a space, starting with the first |
| TextProcessing.Conclusion | src/auto_summarization/services/utils/text_processing.py:315 | the closing sentence starts with "Вывод: " |
| TextProcessing.FullSummarySpec | src/auto_summarization/services/utils/text_processing.py:310-316 | a blank text gives the prompt; otherwise the summary is up to four sentences, a space and the conclusion, starting with the first sentence |
| Analysis.FieldOfChoiceSpec | src/auto_summarization/services/handlers/analysis.py:16-22 | a choice name selects a field exactly when its lower case is that field's key in the choice-to-field table; any other name selects none |
| Analysis.FieldOfChoiceWord | src/auto_summarization/services/handlers/analysis.py:16-22 | every field is reached both from its key and from the capitalised choice name stored in the template table |
| Analysis.Defaults | src/auto_summarization/services/handlers/analysis.py:24-30 | a fresh result holds every field's "not requested" message |
| Analysis.ModelHeaderOutcomes | src/auto_summarization/services/handlers/analysis.py:113-118 | there are exactly three header outcomes: the universal one exactly for "UNIVERSAL", the pretrained one exactly for "PRETRAINED", the basic header for anything else |
| Analysis.FormatText | src/auto_summarization/services/handlers/analysis.py:121-125 | whitespace runs collapse to single spaces; a result within the bound is returned as is, a longer one is cut to exactly the bound, a prefix of the collapsed text followed by "..." |
| Analysis.FormatTextOneLine | src/auto_summarization/services/handlers/analysis.py:121-125 | the formatted text never exceeds the bound, holds no line break, and keeps the words of the text when it fits |
| Analysis.PromptLine | src/auto_summarization/services/handlers/analysis.py:139 | a blank prompt renders "Инструкция не указана."; any other renders stripped and non-empty |
| Analysis.ResultLine | src/auto_summarization/services/handlers/analysis.py:140-149 | generated text takes precedence over an error, and an error over the synthetic note |
| Analysis.RenderOutputLines | src/auto_summarization/services/handlers/analysis.py:128-157 | the rendered field splits at line feeds into exactly its six lines (header, category, choice, instruction, text, result) whenever none of the substituted values brings its own line feed |
| Analysis.CallModel | src/auto_summarization/services/handlers/analysis.py:185-197 | no model runs for a type other than "UNIVERSAL" or "PRETRAINED", and a reported error is at most 400 characters |
| Analysis.ModelErrorRendered | src/auto_summarization/services/handlers/analysis.py:189-197 | a failing model call is caught: nothing is generated and the result line carries the first 400 characters of the exception text |
| Analysis.RowWrite | src/auto_summarization/services/handlers/analysis.py:179-206 | a row writes a field exactly when it is in the requested category, its choice index was requested and its name maps to that field; it writes its rendering |
| Analysis.ApplyWritesUntouched | src/auto_summarization/services/handlers/analysis.py:198 | a field no assignment touches keeps its value |
| Analysis.ApplyWritesLast | src/auto_summarization/services/handlers/analysis.py:198 | a field assigned several times holds the last assignment |
| Analysis.FillDefault | src/auto_summarization/services/handlers/analysis.py:163-198 | a field no processed row targets keeps its default message |
| Analysis.FillLast | src/auto_summarization/services/handlers/analysis.py:178-198 | a field some processed row targets holds the rendering of the last such row |
| Analysis.PerformAnalysisRejects | src/auto_summarization/services/handlers/analysis.py:160-176 | the call fails as a whole exactly when the table is empty, when no row has the category, or when some requested choice has no row in that category, checked in that order |
| Analysis.PerformAnalysisCategory | src/auto_summarization/services/handlers/analysis.py:168-177 | on success the category is the name on the last row carrying the index |
| Analysis.PerformAnalysisFields | src/auto_summarization/services/handlers/analysis.py:163-207 | on success each field holds its default message unless a processed row's choice name maps to it, and then the rendering of the last such row |
| SummaryAnalysis.RowsOf | src/auto_summarization/services/handlers/session.py:204 | the category's rows are exactly the table's rows with that index, the first of them leading |
| SummaryAnalysis.LoadTemplates | src/auto_summarization/services/handlers/session.py:199-215 | loading fails, with "Invalid category index", exactly when no row has the category; otherwise the map is the category's rows keyed by choice index and the name is that of the category's first row |
| SummaryAnalysis.EntriesKeys | src/auto_summarization/services/handlers/session.py:208-213 | the template map holds exactly the choice indices that occur among the category's rows |
| SummaryAnalysis.TitleFieldSpec | src/auto_summarization/services/handlers/session.py:326-333 | a choice fills a text field exactly when its name is that field's capitalised name, compared exactly |
| SummaryAnalysis.Candidates | src/auto_summarization/services/handlers/session.py:283 | the labels of a prompt are non-empty, stripped and free of commas |
| SummaryAnalysis.ClassifyStep | src/auto_summarization/services/handlers/session.py:282-320 | a classification choice with no labels changes nothing; otherwise every field keeps its value or holds what the choice wrote, a label of its prompt |
| SummaryAnalysis.TextStep | src/auto_summarization/services/handlers/session.py:322-333 | any other choice asks the model once; every field keeps its value or holds the model's answer under the field its exact name selects |
| SummaryAnalysis.Step | src/auto_summarization/services/handlers/session.py:276-279 | an index with no template is skipped, leaving the fields as they were |
| SummaryAnalysis.RunOrigin | src/auto_summarization/services/handlers/session.py:276-333 | after the loop every field holds its earlier value or what some selected choice wrote |
| SummaryAnalysis.Filled | src/auto_summarization/services/handlers/session.py:282-333 | what a choice that fills a field stores there is what it writes: one of its labels for the classification, the model's answer to its prompt otherwise; it does not depend on earlier fields |
| SummaryAnalysis.ClassifyStepFills | src/auto_summarization/services/handlers/session.py:282-320 | a classification choice writes only the classification, and only when its prompt has labels; then it stores its pick |
| SummaryAnalysis.TextStepFills | src/auto_summarization/services/handlers/session.py:322-333 | any other choice writes only the field its exact name selects, with the model's answer |
| SummaryAnalysis.StepFills | src/auto_summarization/services/handlers/session.py:276-333 | one pass changes a field only when its choice fills that field, and then to what that choice stores |
| SummaryAnalysis.RunLastFill | src/auto_summarization/services/handlers/session.py:276-333 | after the loop a field holds what the last selected choice that fills it stores, or its earlier value when none does |
| SummaryAnalysis.GenerateAnalysisErrors | src/auto_summarization/services/handlers/session.py:256-271 | the unknown-category error arises exactly when no row has the category, before any collaborator runs; every other failure is a collaborator's |
| SummaryAnalysis.GenerateAnalysisRun | src/auto_summarization/services/handlers/session.py:263-335 | a successful analysis is the loop's result over the selection with repeats removed, starting from the base values |
| SummaryAnalysis.GenerateAnalysisFields | src/auto_summarization/services/handlers/session.py:264-335 | each field holds its base value or what some requested choice wrote: one of its labels for the classification, the model's answer to its prompt otherwise |
| SummaryAnalysis.GenerateAnalysisLastFill | src/auto_summarization/services/handlers/session.py:264-335 | the converse: when no requested index fills a field, it keeps its base value; otherwise it holds exactly what the last filling index, in order of first occurrence, stores there |
| SummaryAnalysis.SelectionDecides | src/auto_summarization/services/handlers/session.py:264-333 | over the request with repeats removed, the last index that fills a field decides it, and with none the field keeps its value |
| SummaryAnalysis.NoFillAfterDedup | src/auto_summarization/services/handlers/session.py:264 | removing repeats brings in no index that fills a field |
| SummaryAnalysis.GenerateAnalysisFieldSource | src/auto_summarization/services/handlers/session.py:264-335 | a changed field was filled by a requested index whose template carries that field's name, and a changed classification is one of that template's labels |
| SummaryAnalysis.GenerateAnalysisDedup | src/auto_summarization/services/handlers/session.py:264 | repeating a choice index changes nothing |
| AnalyzeService.NewCategory | src/auto_summarization/domain/analyze_type.py:27-37 | a category keeps its name and position, and a missing list of choices becomes the empty list |
| AnalyzeService.OrderedChoicesSpec | src/auto_summarization/domain/analyze_type.py:39-40 | the ordered choices are a permutation of the choices, in non-decreasing position, with equal positions in their original relative order |
| AnalyzeService.GetCategory | src/auto_summarization/services/analyze_service.py:20-28 | the lookup succeeds exactly for an index in range, returning the element at that index of the position order; otherwise it is a 400 "Некорректная категория" |
| AnalyzeService.Pick | src/auto_summarization/services/analyze_service.py:32-37 | picking succeeds exactly when every index is in range, and then returns one element per index, in request order |
| AnalyzeService.GetChoices | src/auto_summarization/services/analyze_service.py:30-37 | the choices at the requested positions of the position order, in request order; any index out of range rejects the whole request with a 400 |
| AnalyzeService.ByNameSpec | src/auto_summarization/services/analyze_service.py:45 | a choice of a name is found exactly when one was selected, and it is the last one selected with that name |
| AnalyzeService.FillFields | src/auto_summarization/services/analyze_service.py:47-74 | each field is filled exactly when a choice of its name is among the choices; classification is asked with the category's name |
| AnalyzeService.AnalyseErrors | src/auto_summarization/services/analyze_service.py:39-44 | the call fails exactly on a blank text, a category index out of range, or a choice index out of range, checked in that order, each a 400 |
| AnalyzeService.AnalyseOk | src/auto_summarization/services/analyze_service.py:43-74 | a successful call is the fill over the category at the index in position order and the resolved choices |
| AnalyzeService.SelectedByName | src/auto_summarization/services/analyze_service.py:44-45 | the resolved choices carry a name exactly when some requested position does |
| AnalyzeService.AnalyseFields | src/auto_summarization/services/analyze_service.py:39-74 | on success a field is filled exactly when a choice of its name was requested; the rest keep the empty defaults; sentiments are the keyword analysis of the text and the classification names the category |
| AnalyzeService.AnalyseUsesLastChoice | src/auto_summarization/services/analyze_service.py:45-72 | the prompt and model type behind a summary or a classification come from the last requested choice of that name |
| ChatConfig.LangTitle | src/chat-translation/services/config.py:73-74 | a known code gets its Russian name from the thirteen-entry table, "auto" gets "AUTO", and any other code comes back unchanged |
| ChatConfig.ParseExtensionsSpec | src/chat-translation/services/config.py:16-19 | every parsed item is non-empty, stripped, lower-case and free of commas, and comes from one comma-separated piece; every piece that is not blank contributes its cleaned form |
| ChatConfig.ParseOfJoin | src/chat-translation/services/config.py:16-19 | parsing a comma-joined list of clean items gives back the same list |
| ChatConfig.AddIfAbsent | src/chat-translation/services/config.py:88-103 | a row is appended only when no row with the same model and language pair exists, and afterwards one does |
| ChatConfig.FolderPair | src/chat-translation/services/config.py:80-87 | a folder that names a pair is the source, "-", then the target, both non-empty and the source without "-", so the split is at the first "-" |
| ChatConfig.FolderPairOfName | src/chat-translation/services/config.py:80-87 | conversely, a folder named source, "-", target with non-empty parts and no "-" in the source names exactly that pair when it is a directory or contains "auto"; in particular "auto-ru" always names "auto" to "ru" |
| ChatConfig.AutoRu | src/chat-translation/services/config.py:80-87 | the folder name "auto-ru" names the pair "auto" to "ru" |
| ChatConfig.FolderPairsCover | src/chat-translation/services/config.py:80-87 | the pairs gathered from the model folders plus "auto-ru" include every folder's pair and "auto" to "ru" |
| ChatConfig.RegisterAllSpec | src/chat-translation/services/config.py:80-124 | registering a list of pairs only appends rows, and afterwards every pair has its row |
| ChatConfig.RegisterAllPresent | src/chat-translation/services/config.py:93-114 | when every pair already has its row, registering adds nothing |
| ChatConfig.RegisterAllNoDuplicates | src/chat-translation/services/config.py:88-124 | registering never stores a second row for the same model and language pair |
| ChatConfig.SpecialRows | src/chat-translation/services/config.py:80-103 | the SPECIAL pass keeps every row and leaves a row for every folder pair and for "auto" to "ru" |
| ChatConfig.RegisterSpec | src/chat-translation/services/config.py:77-125 | start-up registration only appends; afterwards every model folder's pair and "auto" to "ru" have a SPECIAL row, every configured language and "auto" have a UNIVERSAL row to "ru", and no duplicate appears |
| ChatConfig.RegisterIdempotent | src/chat-translation/services/config.py:77-125 | registering a second time with the same folders and languages adds nothing, whatever ids it would draw |
| ChatProcessor.ResolvedMode | src/chat-translation/services/pipelines/processor.py:26-33 | "AUTO" resolves to SPECIAL exactly when the lower-cased source has a special model, and to UNIVERSAL otherwise; any other mode is kept as requested |
| ChatProcessor.TranslatorSpec | src/chat-translation/services/pipelines/processor.py:23-49 | the translation step keeps the query, languages and special models; it writes the mode back only for "AUTO"; with an error already recorded it leaves an empty translation; otherwise it stores the chosen translator's answer, and on failure or an unknown mode it leaves an empty translation and records the failure |
| ChatProcessor.TranslatorSkipsOnError | src/chat-translation/services/pipelines/processor.py:34-35 | with an error already recorded, the translators are not consulted |
| ChatProcessor.DetectorSpec | src/chat-translation/services/pipelines/processor.py:53-68 | a failing detector records its message and keeps the source language; otherwise the source becomes the detected (or given, lower-cased) code; a code without a Russian name records "bad language", and a known one leaves the error as it was |
| ChatProcessor.DetectorOnlyForAuto | src/chat-translation/services/pipelines/processor.py:58-59 | the detector is consulted only when the source is "auto" |
| ChatProcessor.PipelineSpec | src/chat-translation/services/pipelines/processor.py:23-68 | detection then translation: an unnamed language or a failing detector ends with an empty translation and that error, and no translator is called |
| ChatSessions.FindSession | src/chat-translation/services/handlers/session.py:198 | `user.get_session(id)` finds the first session with that id, and finds nothing exactly when there is none |
| ChatSessions.WithoutIds | src/chat-translation/services/handlers/session.py:366 | removing sessions by id keeps exactly the sessions whose id is not removed; it changes nothing when no id matches and shortens the list when one does |
| ChatSessions.WithoutIdsTwice | src/chat-translation/services/handlers/session.py:48-50 | removing one set of ids and then another is removing their union |
| ChatSessions.WithoutIdsAppend | src/chat-translation/services/handlers/session.py:48-50 | removing ids from a concatenation is removing them from each part |
| ChatSessions.WithoutTailIds | src/chat-translation/services/handlers/session.py:44-50 | when ids are distinct, removing the ids of every session after position n leaves exactly the first n |
| ChatSessions.DeleteExistSession | src/chat-translation/services/handlers/session.py:356-370 | delete reports success exactly when the user exists and has the session; on error the store is unchanged; the user's sessions with that id go and nothing else changes |
| ChatSessions.DeleteTwice | src/chat-translation/services/handlers/session.py:356-370 | deleting the same session a second time reports an error |
| ChatSessions.DeleteAllSpec | src/chat-translation/services/handlers/session.py:48-50 | deleting a list of ids one after the other removes exactly the sessions with those ids, and does nothing for an unknown user |
| ChatSessions.Listed | src/chat-translation/adapters/orm.py:56-62 | `user.sessions` as loaded: the same sessions, ordered by `updated_at`, with equal times in insertion order |
| ChatSessions.DistinctIdsOfPermutation | src/chat-translation/adapters/orm.py:56-62 | reordering the sessions keeps their ids distinct |
| ChatSessions.GetSessionListViews | src/chat-translation/services/handlers/session.py:21-57 | the list is empty for an unknown user and otherwise holds the views of the first sessions in `updated_at` order, up to the cap; every session not shown was updated no earlier than every one shown |
| ChatSessions.GetSessionListStore | src/chat-translation/services/handlers/session.py:44-50 | listing deletes every session past the cap in `updated_at` order, so a user with distinct ids keeps exactly the sessions shown, only the user's sessions change, and other users are untouched |
| ChatSessions.WithoutIdsOfPermutation | src/chat-translation/services/handlers/session.py:48-50 | removing ids from two orderings of the same sessions keeps the same sessions |
| ChatSessions.FindModel | src/chat-translation/services/handlers/session.py:77 | `models.get(object_id=id)` returns a model row with that id, and returns nothing exactly when there is none |
| ChatSessions.SpecialSources | src/chat-translation/services/handlers/session.py:84-86 | the special-model list holds exactly the source languages of the SPECIAL rows |
| ChatSessions.SetupFor | src/chat-translation/services/handlers/session.py:72-83 | no model id means AUTO from "auto" to the default target; an id naming no model is an error; otherwise the model's mode and languages |
| ChatSessions.CreateNewSessionSpec | src/chat-translation/services/handlers/session.py:60-147 | create fails only for an unknown model id; the session starts at version 0 with the ten-character title and is stored, creating the user if needed, exactly when no pipeline error was recorded; other users are untouched |
| ChatSessions.CreateAutoMode | src/chat-translation/services/handlers/session.py:72-75 | without a model id a create succeeds from "auto" and ends in SPECIAL or UNIVERSAL mode |
| ChatSessions.UpdateExistSessionSpec | src/chat-translation/services/handlers/session.py:149-233 | a re-translation is refused for a missing model, a missing session or a stale version; on success the version goes up by one with title, id and creation time kept, and only that session and the last-use time change, when no pipeline error was recorded |
| ChatSessions.UpdateTitleSessionSpec | src/chat-translation/services/handlers/session.py:236-280 | a rename is refused for a missing session or a stale version; on success only the title, the version (plus one) and the update time change, and an unknown user gets nothing |
| ChatSessions.UpdateTitleIsCompareAndSwap | src/chat-translation/services/handlers/session.py:257-259 | repeating a successful rename with the same version is refused |
| ChatSessions.SearchSpec | src/chat-translation/services/handlers/session.py:326-353 | a blank query is refused first and an unknown user next; otherwise the user's sessions, taken in `updated_at` order, are ranked by match score of title, query and translation, ties in that order, at most 20 |
| DocumentService.Formats | src/auto_summarization/services/document_service.py:10-11 | the supported set is exactly the configured formats lower-cased with their leading dots stripped |
| DocumentService.BaseName | src/auto_summarization/services/document_service.py:17 | `Path(name).name` is a single component, with no `/` |
| DocumentService.Suffix | src/auto_summarization/services/document_service.py:17 | `Path.suffix`: the text from the last dot, at least two characters and not the whole name, and empty exactly when the last dot of the name is missing, first or last |
| DocumentService.ExtensionOfSuffix | src/auto_summarization/services/document_service.py:17 | the extension is the suffix without its single leading dot, lower-cased, or empty when there is no suffix |
| DocumentService.CleanLines | src/auto_summarization/services/document_service.py:34 | every line kept is non-empty, stripped and free of line breaks |
| DocumentService.JoinOfClean | src/auto_summarization/services/document_service.py:34 | clean lines joined with `\n` split back into the same lines under both `split("\n")` and `splitlines`, and survive cleaning unchanged |
| DocumentService.CleanTextSpec | src/auto_summarization/services/document_service.py:34-35 | the cleaned text is empty exactly when no line is non-blank, and its lines are the stripped non-blank lines of the input in order |
| DocumentService.CleanTextIdempotent | src/auto_summarization/services/document_service.py:34 | cleaning a cleaned text changes nothing |
| DocumentService.ExtractTextSpec | src/auto_summarization/services/document_service.py:13-37 | refusals in source order: a missing name (400), an extension not supported (415), empty content (400), no non-blank line (422); an accepted document yields exactly the stripped non-blank lines of the decoded text |
| Dotenv.ParseLine | src/dotenv/__init__.py:11-18 | a line yields an entry exactly when, stripped, it is non-blank, does not start with `#` and contains `=`; the key is stripped and holds no `=` (the split is at the first one); the value neither starts nor ends with a double quote |
| Dotenv.ParseRender | src/dotenv/__init__.py:11-18 | reading back the line `KEY=VALUE` of a well-formed entry gives that entry, so values may themselves contain `=` |
| Dotenv.RenderShape | src/dotenv/__init__.py:16 | the first `=` of a rendered line is the one after the key, which is what the split at the first `=` relies on |
| Dotenv.ReadDotenv | src/dotenv/__init__.py:8-20 | the keys read are exactly the keys of the lines that parse |
| Dotenv.EntriesOfRendered | src/dotenv/__init__.py:10-19 | the lines of well-formed entries parse back to the same entries, in order |
| Dotenv.ReadRendered | src/dotenv/__init__.py:8-20 | a file written from well-formed entries reads back as the map in which the last entry of each key wins |
| Dotenv.SetDefaults | src/dotenv/__init__.py:27-28 | what the loop leaves when no entry is refused: the keys become the union, a variable already set keeps its value, and each new key gets the file's value |
| Dotenv.KeyOrder | src/dotenv/__init__.py:9-19 | the dict's keys, each once, exactly the keys `_read_dotenv` returns |
| Dotenv.KeysOf | src/dotenv/__init__.py:9-19 | the keys of the parsed lines, one per line, in file order |
| Dotenv.KeysOfHas | src/dotenv/__init__.py:9-19 | a key is among the listed keys exactly when some parsed line has it |
| Dotenv.KeysOfRead | src/dotenv/__init__.py:9-19 | the keys of the parsed lines are exactly the keys `_read_dotenv` returns |
| Dotenv.Items | src/dotenv/__init__.py:27 | `.items()` lists each key once, and exactly the pairs of the map `_read_dotenv` returns |
| Dotenv.InOrder | src/dotenv/__init__.py:27 | listing a map's entries along a duplicate-free order of its keys gives each pair once and nothing else |
| Dotenv.SetDefaultsInOrder | src/dotenv/__init__.py:27-28 | running `setdefault` over the entries, raising at a refused one, never changes a variable already set |
| Dotenv.SetDefaultsInOrderSpec | src/dotenv/__init__.py:27-28 | with distinct keys the loop raises exactly when some entry has a new key that `os.putenv` refuses (empty, or a NUL in key or value); if it finishes every entry was applied, and if it raises exactly the entries before the first refused one were applied |
| Dotenv.LoopStep | src/dotenv/__init__.py:27-28 | the loop's outcome after one more `setdefault`, from its outcome before it |
| Dotenv.AppliedSnoc | src/dotenv/__init__.py:28 | one more `setdefault` of a key not seen yet either finds it set already or adds exactly that key |
| Dotenv.NotEarlier | src/dotenv/__init__.py:27 | with distinct keys no entry's key appears among the keys before it |
| Dotenv.LoadDotenv | src/dotenv/__init__.py:23-29 | a missing file gives false with nothing set; a load never changes a variable already set, whether it finishes or raises |
| Dotenv.LoadItems | src/dotenv/__init__.py:27-28 | on an existing file the loop raises exactly when a new key cannot be set, leaves that key unset, sets nothing but the file's keys with the file's values, and when it finishes equals `SetDefaults` of the file's map |
| Dotenv.LoadItemsAgain | src/dotenv/__init__.py:27-28 | once every key is set, running the loop again changes nothing and raises nothing |
| Dotenv.RefusedItems | src/dotenv/__init__.py:27-28 | some entry is refused exactly when some new key of the file cannot be set |
| Dotenv.AppliedAll | src/dotenv/__init__.py:27-28 | applying every entry of the file is `SetDefaults` of the file's map |
| Dotenv.AppliedNothing | src/dotenv/__init__.py:27-28 | applying entries whose keys are all set already leaves the environment as it was |
| Dotenv.DotenvValues | src/dotenv/__init__.py:32-36 | a missing file (with `.env` when no path or an empty path is given) reads as the empty map |
| Dotenv.LoadDotenvSpec | src/dotenv/__init__.py:23-29 | the result is true exactly when the file exists and the load finishes; it raises exactly when a new key of the file cannot be set, and then that key stays unset; a variable already set is never overwritten and nothing but the file's keys is set; a finished load sets every new key to the value `dotenv_values` reads, and loading again changes nothing |
| UserService.NewUser | src/auto_summarization/domain/user.py:10-18 | the id is kept; an absent or empty display name falls back to the id, an absent or zero creation time to the current time, and any other value is kept |
| UserService.Rename | src/auto_summarization/domain/user.py:20-23 | only the display name can change: a blank name leaves the user as it was, any other becomes a non-empty stripped name |
| UserService.RenameIdempotent | src/auto_summarization/domain/user.py:20-23 | renaming twice with one name is renaming once, and surrounding whitespace makes no difference |
| UserService.NormalizeIdentifier | src/auto_summarization/services/user_service.py:50-62 | a missing or empty id is refused with 400 "Не указан идентификатор пользователя", exactly the other blank ids with 400 "Некорректный идентификатор пользователя", and an accepted id is non-empty and stripped |
| UserService.NormalizeIdempotent | src/auto_summarization/services/user_service.py:50-62 | a normalised id normalises to itself, and padding an id does not change its normal form |
| UserService.ListUsers | src/auto_summarization/services/user_service.py:13-17 | every stored user is listed and nothing else is |
| UserService.CreateUserSpec | src/auto_summarization/services/user_service.py:19-32 | a bad id is refused with its normalisation error and a taken one with 409; a new user gets the normalised id and the current time, is stored and listed, leaves every other user alone, and a second creation is refused |
| UserService.DeleteUserSpec | src/auto_summarization/services/user_service.py:34-48 | a bad id is refused with its normalisation error and an unknown user with 404; otherwise exactly that user and all of its sessions go, everyone else's stay, and creating then deleting restores the users |
| ChatUsers.GetUserList | src/chat-translation/services/handlers/user.py:14-27 | every stored user is listed with its id, flag and times; when every user is stored under its own id, each listed view is such a stored user's view |
| ChatUsers.GetUserListOnePerUser | src/chat-translation/services/handlers/user.py:14-27 | when every user is stored under its own id, the listed ids are exactly the stored ids and there is exactly one view per stored user |
| ChatUsers.CreateNewUser | src/chat-translation/services/handlers/user.py:37-57 | "created" exactly when the id was free, with a new user that has no sessions and equal start and last-use times; "exist" changes nothing; other users never change |
| ChatUsers.CreateNewUserSpec | src/chat-translation/services/handlers/user.py:37-57 | registration keeps users stored under their own ids, adds exactly the new user's view to the list, and a second registration reports "exist" and changes nothing |
| ChatUsers.DeleteExistUserAsWritten | src/chat-translation/services/handlers/user.py:66-83 | the handler as written raises exactly when the user is absent, and otherwise removes it and reports "deteted" |
| ChatUsers.DeleteUnknownUserRaises | src/chat-translation/services/handlers/user.py:72-74 | a concrete absent user for which the handler as written raises rather than returning |
| ChatUsers.DeleteExistUser | src/chat-translation/services/handlers/user.py:70-77 | the corrected handler removes the user and nobody else, and reports a deletion exactly when the user existed |
| ChatUsers.DeleteExistUserSpec | src/chat-translation/services/handlers/user.py:66-83 | the corrected handler agrees with the written one whenever the latter returns; registering then deleting a new user restores the users; a second deletion reports the miss |
| Seqs.Dedup | src/auto_summarization/services/handlers/session.py:264 | `list(dict.fromkeys(choices))`: no repeats, and exactly the elements of the input |
| Seqs.DedupOrder | src/auto_summarization/services/handlers/session.py:264 | the deduplicated list keeps the order of first occurrences in the input |
| Seqs.DedupSnoc | src/auto_summarization/services/handlers/session.py:264 | appending an element already seen leaves the result unchanged; a new one goes to the end |
| Seqs.DedupIdempotent | src/auto_summarization/services/handlers/session.py:264 | deduplicating twice gives the same list as deduplicating once |
| Seqs.FirstWins | src/auto_summarization/services/handlers/analysis.py:105-107 | filling a dict with `setdefault`: every key present, no other keys, each key mapped to the value of its first occurrence |
| Seqs.LastWins | src/auto_summarization/services/handlers/analysis.py:168 | a dict comprehension: every key present, no other keys, each key mapped to the value of its last occurrence |
| Seqs.SortedKeys | src/auto_summarization/services/handlers/analysis.py:108-109 | `sorted(map.keys())` for integer keys: strictly increasing, with the same members |
| Strings.Lower | src/auto_summarization/services/handlers/session.py:37 | `lower()` keeps the length and maps every character on its own |
| Strings.LowerIdempotent | src/auto_summarization/services/handlers/session.py:37 | lower-casing twice is lower-casing once |
| Strings.Strip | src/auto_summarization/services/document_service.py:34 | `strip()`: no longer than the input, empty exactly for a blank input, no whitespace left at either end |
| Strings.StripIdempotent | src/auto_summarization/services/document_service.py:34 | stripping twice is stripping once |
| Strings.Words | src/auto_summarization/services/handlers/session.py:46-47 | `split()` yields only non-empty whitespace-free words |
| Strings.WordsOfJoin | src/auto_summarization/services/handlers/session.py:37 | splitting words joined by single spaces gives the same words back |
| Strings.WordsEmptyIffBlank | src/chat-translation/services/handlers/session.py:380-383 | `split()` is empty exactly when the text is blank |
| Strings.CollapseSpaces | src/auto_summarization/services/handlers/analysis.py:122 | `" ".join(text.split())` has the same words, only plain spaces, and is empty exactly for a blank text |
| Strings.SplitOn | src/chat-translation/services/config.py:19 | `split(",")` gives at least one piece and no piece holds the separator |
| Strings.JoinOfSplit | src/chat-translation/services/config.py:19 | joining the pieces of a split with the separator restores the string |
| Strings.SplitOfJoin | src/chat-translation/services/config.py:19 | splitting a join gives the parts back when no part holds the separator |
| Strings.ContainsIffOccurs | src/chat-translation/services/handlers/session.py:373-383 | `q in t` holds exactly when `q` occurs at some position of `t` |
| Strings.CountPositiveIffContains | src/auto_summarization/services/utils/text_processing.py:94-95 | a non-empty keyword is counted at least once exactly when it occurs in the text |
| Strings.CountFits | src/auto_summarization/services/utils/text_processing.py:94-95 | the counted occurrences do not overlap: together they fit in the text |
| Strings.Lines | src/dotenv/__init__.py:10 | `splitlines()` pieces hold no line boundary |
| Strings.LinesOfJoin | src/auto_summarization/services/document_service.py:34 | splitting lines joined by newlines gives them back when none is empty or holds a boundary |
| Strings.StrippedNonBlankMembers | src/chat-translation/services/config.py:107 | `[p.strip() for p in parts if p.strip()]` holds exactly the strips of the non-blank parts |
| Strings.MapNonEmptyMembers | src/chat-translation/services/config.py:19 | the filtered comprehension holds exactly the non-empty images of the parts |
| Strings.DecimalRoundTrip | src/auto_summarization/services/handlers/session.py:646 | the limit printed into the length error message reads back as the limit itself |

## Left out

- The HTTP layer (routers, schemas, header extraction, CORS) and persistence plumbing (ORM tables, engine and session setup, `session_scope`). Stores are immutable values. A handler that raises returns an error and no new store, which stands for the unit of work rolling back.
- The chat-translation domain `User` (`get_session`, `get_sessions`, `delete_session`), `SessionRepository` (`list_for_user`, `get_for_user`, `trim_to_limit`, `delete`) and the `AnalysisSession` model are not part of this model. They are given these definitions:
  - `get_session` is the first session with the id;
  - `delete_session` removes every session with the id and reports whether there was one;
  - `get_sessions` is the sessions ordered by `updated_at`, the order the ORM mapping loads them in (src/chat-translation/adapters/orm.py:59). SQL leaves the order of equal times open; the model keeps insertion order for them (`ChatSessions.Listed`);
  - `trim_to_limit` evicts the owner's least recently updated sessions until the limit holds (`SessionService.TrimToLimit`); equal times are evicted in store order. The survivors are placed after the other owners' sessions, so store order no longer reflects insertion after a trim;
  - a new `AnalysisSession` starts at version 0 with its creation and update times equal, as the chat-translation handlers write explicitly (src/chat-translation/services/handlers/session.py:110);
  - `AnalysisSession.rename` replaces the title, and `AnalysisSession.update_payload` replaces the text, category, choices and results.
- The summarization handlers' `User` and `Session` (src/auto_summarization/services/handlers/session.py) are not part of this model. The classes in src/auto_summarization/domain/user.py and domain/session.py do not provide what the handlers call. They have no `get_session`, `get_sessions`, `delete_session` or `update_time`, and their constructors take different fields from the `User(temporary=…, started_using_at=…, last_used_at=…, sessions=[])` the handlers build. src/auto_summarization/adapters/orm.py maps no `User` at all. The model gives them these definitions:
  - a user holds `temporary`, `started_using_at`, `last_used_at` and its sessions, in the order they were appended (`SummarySessions.User`);
  - `get_sessions` returns the sessions in that stored order, so `get_session_list` shows the first stored sessions (`SummarySessions.GetSessionList`), and search ties keep stored order (`SummarySessions.SearchRankingSpec`);
  - `get_session` is the first session with the id (`SummarySessions.FindSession`);
  - `delete_session` removes every session with the id and reports whether there was one (`SummarySessions.RemoveSession`);
  - `update_time(last_used_at=now)` sets the user's last use to `now`;
  - a session carries its id, version, title, text, the five analysis texts and its creation and update times (`SummarySessions.Session`).
- The chat-translation updates assign fields before the version check (src/chat-translation/services/handlers/session.py:201-209 and 256-258). The model assumes the unit of work discards these uncommitted assignments, so a refused update returns no new store.
- Concurrency and transaction isolation. Every compare-and-swap acts on one store state.
- The language model, zero-shot classifier, condenser, translators, language detector and context-window probe are function parameters. Those that can raise return a `Result`. `_extract_message_content` is not modelled: the language-model parameter returns the text directly.
- `difflib.SequenceMatcher.ratio()` is a function parameter into [0, 1].
- Floating point: scores are exact rationals (`real`); classification confidences and their rounding are left out.
- Clock readings and `uuid4` are parameters. A handler that reads the clock twice (create in the translation handlers) reads it once in the model.
- Regex entity extraction (`extract_entities`) is a parameter. Sentence splitting is modelled directly on the characters.
- `lower`, `upper` and `isspace` are exact on ASCII and basic Cyrillic (U+0400 to U+045F). Other characters are left unchanged by case mapping.
- `_prepare_results` is the identity: the analysis result is a datatype that always carries all five fields, so the JSON round trip and the `setdefault` calls add nothing.
- UTF-8 decoding of uploads is a parameter. Format extraction (docx, pdf, odt), PDF export, `download_session_file` and temporary files are I/O.
- `find_dotenv` (a filesystem walk) and the `requests` test shim. The file system is a map from path to contents, with POSIX paths only.
- Dotenv.LoadDotenv: of the ways `os.environ.setdefault` can raise, only the POSIX refusals are modelled: `ValueError` for a NUL character in the name or value, and `OSError` for an empty name, which `setenv` refuses. The model records that the load raised, not which exception it raised. Encoding errors and the Windows rules are left out, and `read_text` failing on a file that is not UTF-8 is I/O.
- A missing model folder. `os.listdir` raises when `CHAT_TRANSLATION_SPEC_MODEL_PATH` does not exist (src/chat-translation/services/config.py:80). The `try` has no `except`, and the registration runs at import (config.py:130), so the service does not start. The model takes the folder listing as given (`ChatConfig.RegisterTranslationModels`), since listing a directory is I/O.
- The "error" statuses the translation user handlers return on a database failure, and the empty list `get_user_list` returns on one: the model store cannot fail.
- Truthiness of stored objects (`if entities_choice:`) is read as presence.
- A negative `MAX_SESSIONS`: the caps are natural numbers.
- SessionService.ResolveTitleSpec: for a candidate longer than 80 characters it states that the title is a prefix of the first 77 characters plus "...", not that exactly the trailing whitespace is dropped.
- ChatSessions.GetSessionListStore: states the user's remaining sessions exactly only when session ids are distinct (they are `uuid4` strings), since the trimming deletes by id.
- Similarity.MatchScore and Similarity.ChatMatchScore: their own contracts state only the range; the formula is stated by `MatchScoreSpec` and by the `ChatMatchScore*` lemmas.

## Findings

| source | as written | input that shows it | evidently intended | confidence | as-written member | corrected member |
|---|---|---|---|---|---|---|
| src/chat-translation/services/handlers/user.py:72-83 | for an absent user, `return False` inside `try` is overridden by `return status` in `finally`, and `status` was never assigned, so `UnboundLocalError` escapes | deleting user id "u" from an empty store | report that the user does not exist and change nothing | not executed | ChatUsers.DeleteUnknownUserRaises | ChatUsers.DeleteExistUserSpec |

The corrected `ChatUsers.DeleteExistUser` keeps the status literal "deteted" for a successful delete, as the source spells it.
