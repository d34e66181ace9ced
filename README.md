# Ask the Manifestos — a Dafny model of the question-and-answer core

Ask the Manifestos puts one question to an OpenAI assistant per political party and streams
the answers back as they are generated. This project models the core of that flow in Dafny:

- **Asking, on the server** (`Parties`, `lib/atm/parties.ts`):
  - the question is stored under a fresh slug;
  - one answer iterator runs per party: it resolves the party by slug, checks its default
    assistant, inserts the answer row and announces it, relays each `thread.message.delta`
    as an `answer.delta`, then stores and announces the final text;
  - the orchestrator merges the party iterators, collects the completed answers and closes
    the question.
- **Questions as read back** (`queryQuestions`, `getQuestionById`, `getQuestionBySlug`):
  they are filtered by user, ids, slugs and completion, questions without answers are
  dropped, and each answer's assistant is replaced by its party.
- **The merged stream** (`MergedStream`): `ix`'s `merge` is described by what any
  interleaving keeps — every producer's own sequence, in its order. It is proved to keep
  per-kind event counts.
- **The wire format** (`Serialize`, `lib/atm/serialize.ts`; `Types`, `lib/atm/types.ts`):
  the internal and serialized event unions, and what serialization keeps and drops.
- **The browser** (`Questions`, `app/questions.tsx`):
  - `useAsk` merges the questions asked on the page with the server's list, sorts them
    newest first and keeps five;
  - `ask` appends the new question and applies each received wire event to it, following
    the slug the server assigns;
  - the local state is the class `LocalQuestions`, whose `Ask` method holds the event loop.
- **Both ends together** (`Conversation`): when every party answers, the question the user
  asked ends under the server's slug, no longer loading and with one answer per party.
- **Sessions and users** (`Auth`, `lib/atm/auth.ts`; `Users`, `lib/atm/users.ts`):
  - the session token comes from the `token` cookie or the `Authorization: Bearer` header,
    whose regular expression is modelled exactly, backtracking included;
  - `findSession`, `getSession`, `destroySession` and `findOrCreateAnonymousCookieSession`
    make their decisions over a mutable cookie store;
  - user metadata is parsed with the zod schema.
- **URLs** (`Urls`, `app/urls.ts`).

Database reads are modelled by the rows they return. Store-assigned values (serial ids,
`defaultNow()` times, nanoid slugs) and the client's clock readings are parameters. The
OpenAI run of each party is the sequence of stream events it delivers, then either a fault
or its final messages. An async generator is its `Trace`: the events it yielded, then a
normal end or the error it threw.

Two behaviours of the code are easy to miss:
- A failing party aborts the whole ask. `merge` rethrows a party's error, so the orchestrator
  stops, ends with that error and never emits `question.completed`. Answers completed before
  the failure are collected but never delivered in a `question.completed`
  (`Parties.FailingPartyAbortsAsk`).
- An `Authorization` value of "Bearer" followed only by blanks does not give "no token". The
  regular expression backtracks and captures the last blank (`Auth.BearerBlankYieldsLastBlank`).
  Header values arrive with surrounding spaces and tabs trimmed, so this happens when the last
  blank is another `\s` character, such as a no-break space (U+00A0).

## Model

| member | source | states |
|---|---|---|
| Types.EventTypeTags | lib/atm/types.ts:27-54 | the `type` tag identifies the variant: five distinct tags, the three answer tags exactly for the answer events, the two question tags exactly for the question events |
| Types.ParseNullableString | lib/atm/types.ts:13-14 | `z.string().nullable().default(null)`: succeeds exactly when the key is absent, null or a string; a string is kept, anything else fails naming the key |
| Types.ParseUserMetadata | lib/atm/types.ts:11-15 | the metadata parses exactly when both name fields parse, and then holds their values |
| Types.ParseIgnoresOtherKeys | lib/atm/types.ts:12-15 | keys other than `firstName` and `lastName` do not affect the parse |
| Serialize.SerializeParty | lib/atm/serialize.ts:37-45 | the five public party fields are copied |
| Serialize.SerializePartyKeepsExactly | lib/atm/serialize.ts:37-45 | two parties serialize alike exactly when they agree on slug, name, logo, url and manifesto url |
| Serialize.SerializeAnswer | lib/atm/serialize.ts:23-35 | annotations are never null on the wire (null becomes `[]`, a list is kept); the creation time becomes its epoch milliseconds; id, content, completion, index and the serialized party are copied |
| Serialize.SerializeAnswerKeepsExactly | lib/atm/serialize.ts:23-35 | two answers serialize alike exactly when they agree on id, content, completion, index, time, public party fields, and annotations with null read as empty |
| Serialize.SerializeAnswers | lib/atm/serialize.ts:18 | one serialized answer per answer, in order |
| Serialize.SerializeQuestion | lib/atm/serialize.ts:12-21 | content, slug and epoch time copied; the answers serialized one by one, in order |
| Serialize.SerializeEvent | lib/atm/serialize.ts:47-85 | the `type` tag is kept; `answer.started` and `answer.completed` carry the serialized answer; `question.created` carries the serialized question with no answers; `question.completed` embeds its answers in the question; a delta's id, text and annotations pass unchanged |
| Serialize.SerializeQuestionEventsEmbedAnswers | lib/atm/serialize.ts:68-84 | question events keep no separate answer list: the answers of `question.completed` sit inside the question, those of `question.created` are empty |
| Urls.FormatUrl | app/urls.ts:1-3 | the path is returned, `""` when omitted |
| Urls.FormatQuestionsUrl | app/urls.ts:5-7 | a leading `/` followed by the path |
| Urls.FormatQuestionUrl | app/urls.ts:9-11 | `/questions/` followed by the slug and the optional sub-path |
| Urls.QuestionUrlIsPrefix | app/urls.ts:9-11 | a question's page URL is a prefix of each of its sub-page URLs |
| Urls.QuestionUrlInjective | app/urls.ts:9-11 | distinct slugs give distinct question URLs |
| Users.TransformSupabaseUserToUser | lib/atm/users.ts:33-41 | succeeds exactly when the metadata parses; id and email from the auth user, names from the parsed metadata |
| Users.TransformNames | lib/atm/users.ts:33-41 | the transform fails exactly when a name key holds something other than null or a string; a name is present exactly when its key holds a string, and then is that string |
| Users.GetUserById | lib/atm/users.ts:6-18 | a service error is rethrown; a missing user is `UserNotFoundError`; otherwise the transformed user, exactly when it transforms |
| Users.UpdateUserById | lib/atm/users.ts:20-31 | email is sent apart; the metadata holds only the name keys, each exactly when the patch gives it |
| Users.UpdatedMetadataParses | lib/atm/users.ts:20-31 | the metadata sent satisfies the schema and parses back to the patch's names, an omitted name as null |
| Auth.MatchBearer | lib/atm/auth.ts:43-45 | a capture exists only for a value starting with "bearer" in any letter case; it is non-empty, holds no line terminator and is a suffix of the value |
| Auth.WhitespacePrefix | lib/atm/auth.ts:43 | the length of the leading run of `\s` characters |
| Auth.Backtrack | lib/atm/auth.ts:43 | whatever `(.+)` captures is non-empty, holds no line terminator and is a suffix of the text after "bearer" |
| Auth.BacktrackBlocked | lib/atm/auth.ts:43 | a line terminator after the whitespace a match may give back makes the match fail |
| Auth.BacktrackFrom | lib/atm/auth.ts:43 | once `\s*` has given back all but a start position inside the text, `(.+)$` captures the rest from there exactly when it holds no line terminator, and otherwise the match fails |
| Auth.BacktrackFromEnd | lib/atm/auth.ts:43 | when `\s*` has taken the whole text, backtracking gives its last character to `(.+)`, which captures it unless it is a line terminator |
| Auth.MatchBearerCases | lib/atm/auth.ts:43 | `/^bearer\s*(.+)$/i` in closed form: the text after "bearer" minus leading whitespace when that is non-empty and free of line terminators, none when it holds one; an all-blank remainder yields its last character unless that is a line terminator; nothing after "bearer" gives no match |
| Auth.BearerWithoutSeparator | lib/atm/auth.ts:43 | "bearer" in any letter case needs no separator before the token |
| Auth.BearerAloneIsNull | lib/atm/auth.ts:43-45 | "bearer" alone gives no token |
| Auth.BearerBlankYieldsLastBlank | lib/atm/auth.ts:43-45 | "Bearer" followed only by `\s` characters, the last of them not a line terminator, yields that last character as the token |
| Auth.GetRequestSessionToken | lib/atm/auth.ts:34-47 | the default store is the cookie; the token is the non-empty `token` cookie, or the bearer capture of the Authorization header; an empty value reads as null |
| Auth.HeaderTokenShape | lib/atm/auth.ts:41-45 | a header token exists only for a "bearer" header, holds no line terminator, and is the text after "bearer" minus leading whitespace unless that is all blank |
| Auth.SignedInCookieIsFound | lib/atm/auth.ts:73-74 | once the sign-in stores a non-empty access token in the `token` cookie, the cookie lookup finds it |
| Auth.CreateSession | lib/atm/auth.ts:103-111 | succeeds exactly when the user metadata parses, with the token as id and the transformed user; otherwise `InvalidUserMetadata` with the schema error |
| Auth.FindSession | lib/atm/auth.ts:10-32 | no token gives null without consulting the auth service; an auth-API 403 gives null; any other error is rethrown; no error and no user gives null; a user gives the session `createSession` builds, or its metadata error |
| Auth.FindSessionWithoutToken | lib/atm/auth.ts:13-15 | without a token the auth service's answer cannot matter |
| Auth.GetSession | lib/atm/auth.ts:49-57 | `SessionNotFoundError` exactly when `findSession` gives null; a session exactly when it finds one, and then that one |
| Auth.GetApiSession | lib/atm/auth.ts:82-88 | without an Authorization header there is no session; a session found has the bearer capture as its id |
| Auth.ApiSessionIgnoresCookies | lib/atm/auth.ts:82-88 | an API session does not depend on the request's cookies |
| Auth.CookieStore.constructor | lib/atm/auth.ts:73 | the store holds the request's cookies |
| Auth.CookieStore.Set | lib/atm/auth.ts:74 | the cookie is set to the value, the other cookies are untouched |
| Auth.CookieStore.Delete | lib/atm/auth.ts:100 | the cookie is removed, the other cookies are untouched |
| Auth.DestroySession | lib/atm/auth.ts:90-101 | anything but an explicit cookie store is refused and the cookies stay; without a session its error is raised and the cookies stay; otherwise exactly the `token` cookie is deleted |
| Auth.FindOrCreateAnonymousCookieSession | lib/atm/auth.ts:59-80 | an existing session or a lookup error is returned with the cookies untouched; otherwise a failed or incomplete anonymous sign-in fails with the cookies untouched, and a successful one sets exactly the `token` cookie to the access token and builds the session from it |
| MergedStream.Project | lib/atm/parties.ts:41 | one producer's share of the merge is never longer than the merge |
| MergedStream.ProjectedElementInMerge | lib/atm/parties.ts:41 | whatever one producer's share holds is drawn from the merged stream |
| MergedStream.Count | lib/atm/parties.ts:41-47 | a count of matching elements is at most the length |
| MergedStream.CountAppend | lib/atm/parties.ts:41-47 | counts add up over concatenation |
| MergedStream.CountZero | lib/atm/parties.ts:41-47 | the count is zero exactly when no element matches |
| MergedStream.CountEnds | lib/atm/parties.ts:115-164 | when nothing strictly inside matches, only the first and last elements can count |
| MergedStream.SumBump | lib/atm/parties.ts:41 | raising one producer's tally by one raises the total by one |
| MergedStream.SumEach | lib/atm/parties.ts:34-36 | K producers with c matching elements each hold K times c together |
| MergedStream.Shares | lib/atm/parties.ts:41 | one tally per producer, tallied along the merge |
| MergedStream.Tallies | lib/atm/parties.ts:34-36 | one tally per producer, taken from the producer's own elements |
| MergedStream.ProjectLastCount | lib/atm/parties.ts:41 | the last merged element counts towards its own producer's share and no other |
| MergedStream.SharesAreProjectedCounts | lib/atm/parties.ts:41 | a producer's tally along the merge equals the count of its share of the merge |
| MergedStream.CountSplits | lib/atm/parties.ts:41 | when every merged element comes from one of K producers, the merged count is the sum of the K tallies |
| MergedStream.MergePreservesCounts | lib/atm/parties.ts:41 | a faithful merge holds exactly as many matching events as all producers together, for any property |
| MergedStream.MergedElementFromOrigin | lib/atm/parties.ts:41 | every merged element belongs to the projection of the producer it came from |
| MergedStream.ProducerElementInMerge | lib/atm/parties.ts:41 | every element a producer yields reaches the merged stream |
| Parties.GetPartyBySlug | lib/atm/parties.ts:167-182 | the party exactly when the slug is stored; otherwise a not-found error naming the slug |
| Parties.FirstText | lib/atm/parties.ts:122-128 | content is accepted exactly when its first part is text with a non-empty value, which is then returned |
| Parties.FinalText | lib/atm/parties.ts:139-146 | no final message is an error; otherwise the first message's content is checked as a delta's is |
| Parties.NewAnswerRow | lib/atm/parties.ts:92-101 | the inserted answer is empty, not completed, at the party's index, for the question and the default assistant |
| Parties.CompletedAnswerRow | lib/atm/parties.ts:148-156 | the final update sets content, annotations and completion, and nothing else |
| Parties.DeltaEvents | lib/atm/parties.ts:120-137 | at most one delta per stream event; no error exactly when every `thread.message.delta` has valid text content |
| Parties.PartyTrace | lib/atm/parties.ts:80-165 | no error exactly when the party exists with a default assistant, every delta is valid, the run does not fail and the final message is valid; then at least `answer.started` and `answer.completed`, the latter last |
| Parties.RelayDeltas | lib/atm/parties.ts:120-137 | the relay loop yields exactly the delta events of `DeltaEvents`, stopping with its error at the first invalid delta |
| Parties.AnswerForParty | lib/atm/parties.ts:80-165 | one party's answer iterator yields and ends exactly as `PartyTrace` |
| Parties.DeltaEventsShape | lib/atm/parties.ts:120-137 | every relayed delta names the answer; a valid stream gives one delta per `thread.message.delta`; the only stream error is invalid content |
| Parties.PartyTraceShape | lib/atm/parties.ts:80-165 | only answer events; started and completed answers name the party, its index and the inserted id; deltas name that id; completed only when nothing failed; a full answer is started, one delta per message delta, completed |
| Parties.PartyTraceErrors | lib/atm/parties.ts:85-90 | an unknown slug or a missing default assistant fails before yielding; an invalid final message means no `answer.completed`; otherwise `answer.started` comes first |
| Parties.AnswerShapeCounts | lib/atm/parties.ts:115-164 | started, then only deltas, then completed: one `answer.started`, one `answer.completed`, no question event |
| Parties.PartyTraceCounts | lib/atm/parties.ts:115-164 | a full answer holds exactly one `answer.started`, one `answer.completed` and no question event |
| Parties.NewQuestionRow | lib/atm/parties.ts:64-78 | the question is stored for the user with the content and the fresh slug, not completed, not public, without votes |
| Parties.CompletedAnswers | lib/atm/parties.ts:38-47 | one collected answer per `answer.completed` |
| Parties.CompletedAnswersAppend | lib/atm/parties.ts:41-47 | answers are collected in arrival order |
| Parties.CompletedAnswersMembership | lib/atm/parties.ts:44-46 | an answer is collected exactly when an `answer.completed` carried it |
| Parties.CreateAndAnswerQuestion | lib/atm/parties.ts:21-62 | the orchestrator yields and ends exactly as `AskTrace` |
| Parties.AskTrace | lib/atm/parties.ts:21-62 | no error exactly when there are parties and the merge does not throw; then `question.completed` comes last with the collected answers; after an error no `question.completed` is yielded |
| Parties.AskTraceShape | lib/atm/parties.ts:21-62 | no parties: nothing yielded and an error; otherwise `question.created` first, the merged events unchanged and in order, and, only when the merge did not throw, `question.completed` last with the collected answers |
| Parties.PartyTraces | lib/atm/parties.ts:34-36 | one answer iterator per party slug, party `p` at index `p` |
| Parties.MergedAnswerCounts | lib/atm/parties.ts:34-47 | merging K full answers yields K `answer.started`, K `answer.completed` and no question event |
| Parties.AskWhenEveryPartyAnswers | lib/atm/parties.ts:21-62 | when all K parties answer: one `question.created` first, one `question.completed` last, K started, K completed, and the final question carries K answers whose indices are exactly 0..K-1 |
| Parties.PartyRuns | lib/atm/parties.ts:34-36 | one run per party slug, party `p`'s run yielding exactly its answer iterator's events |
| Parties.FailingPartyAbortsAsk | lib/atm/parties.ts:21-62 | when some party's iterator fails, the merge rethrows a party's error: the ask ends with an error raised by one of the parties and yields no `question.completed` |
| Parties.CompletedAskHadEveryPartyAnswer | lib/atm/parties.ts:21-62 | an ask that ends without error had parties, a merge that did not throw, every party answering in full, and a merge that relayed every party's events in order |
| Parties.Positions | lib/atm/parties.ts:34-36 | the positions 0..k-1 of a list of k parties |
| Parties.CollectedAnswerIndex | lib/atm/parties.ts:34-46 | a collected answer sits at the index of the party that gave it |
| Parties.PartyAnswerCollected | lib/atm/parties.ts:34-46 | every party's completed answer is collected |
| Parties.CompletedAnswersIndices | lib/atm/parties.ts:34-46 | the collected answers' indices are exactly the parties' positions |
| Parties.Conditions | lib/atm/parties.ts:287-307 | every condition is one asked for, with the query's value; a user condition exactly when the user id is non-empty; id and slug conditions exactly when those lists are given; a completion condition exactly when `completed` is a boolean |
| Parties.MatchesQuery | lib/atm/parties.ts:287-307 | a question passes the `and` of the conditions exactly when it has the requested non-empty user id, an id among the requested ids, a slug among the requested slugs and the requested completion flag, each only when requested |
| Parties.ReshapeAnswers | lib/atm/parties.ts:325-328 | each answer's assistant is replaced by that assistant's party, in order |
| Parties.QueryQuestions | lib/atm/parties.ts:283-330 | no more questions than stored rows |
| Parties.QueryQuestionsMembership | lib/atm/parties.ts:283-330 | a question is listed exactly when a stored row matches every condition and has answers, with that row's answers reshaped; a given completion flag is always respected |
| Parties.QueryQuestionsAppend | lib/atm/parties.ts:321-329 | the store's order is kept |
| Parties.ConditionsIgnoreCompletion | lib/atm/parties.ts:287-307 | without a boolean `completed`, whether a question matches does not depend on its completion flag |
| Parties.QueryIgnoresCompletionWhenNull | lib/atm/parties.ts:302-304 | without a boolean `completed`, rewriting the stored completion flags changes nothing else in the result |
| Parties.QueryQuestionsFirst | lib/atm/parties.ts:283-330 | something is listed exactly when some stored row is listed, and the first question listed comes from the first such row |
| Parties.GetQuestionById | lib/atm/parties.ts:248-260 | a not-found error names the id; what is found is the first stored question with the id that has answers, its answers reshaped |
| Parties.GetQuestionBySlug | lib/atm/parties.ts:262-274 | a not-found error names the slug; what is found is the first stored question with the slug that has answers, its answers reshaped |
| Parties.GetQuestionByIdSpec | lib/atm/parties.ts:248-260 | found exactly when a stored question with the id has answers, and then is such a question; otherwise a not-found error naming the id |
| Parties.GetQuestionBySlugSpec | lib/atm/parties.ts:262-274 | found exactly when a stored question with the slug has answers, and then is such a question; otherwise a not-found error naming the slug |
| Questions.FindLocal | app/questions.tsx:106-108 | a result is the first local question with the slug; none means no local question has it |
| Questions.MergeRemote | app/questions.tsx:105-115 | one entry per remote question, keeping its slug: the local question with that slug while it is loading, the remote one otherwise |
| Questions.Unmerged | app/questions.tsx:117-124 | exactly the local questions whose slug no merged question has, no more of them than there are |
| Questions.UnmergedAppend | app/questions.tsx:117-124 | the filter works part by part on a concatenation, so it keeps order and multiplicity |
| Questions.UnmergedSingle | app/questions.tsx:117-124 | a single local question is kept exactly when no merged question has its slug |
| Questions.UnmergedNothing | app/questions.tsx:117-124 | with nothing merged every local question is kept, in order |
| Questions.UnmergedShownIff | app/questions.tsx:117-124 | a local question is shown after the merged ones exactly when no remote question has its slug |
| Questions.MergeQuestions | app/questions.tsx:105-124 | at least one entry per remote question and at most one more per local question; before the server's list arrives, the local questions in order |
| Questions.MergeQuestionsSpec | app/questions.tsx:105-124 | every remote slug stays in place; that entry is local exactly when the first local question with the slug is loading, and otherwise is the remote question; a local question is appended exactly when no remote question has its slug |
| Questions.MergeQuestionsUnique | app/questions.tsx:105-124 | when neither list repeats a slug, no slug is shown twice |
| Questions.InsertByKey | app/questions.tsx:126-128 | inserting adds exactly the element |
| Questions.InsertByKeyAscending | app/questions.tsx:126-128 | inserting into an ascending list keeps it ascending |
| Questions.SortByCreatedAt | app/questions.tsx:126-128 | the sort is ascending by creation time and a permutation |
| Questions.Reverse | app/questions.tsx:129 | the elements in the opposite order, the same multiset |
| Questions.ReverseDescending | app/questions.tsx:129 | an ascending list reversed is descending |
| Questions.PrefixIsNewest | app/questions.tsx:207 | a prefix of a descending list holds its newest elements |
| Questions.NewestFirst | app/questions.tsx:126-129 | five questions are shown, or all of them when there are fewer |
| Questions.NewestFirstSpec | app/questions.tsx:126-129 | at most five shown, all of them when fewer; newest first; drawn from the merged list; none left out is newer than one shown |
| Questions.ShownQuestions | app/questions.tsx:105-207 | what `useAsk` returns: as many as five of the merged questions, all of them when fewer, newest first, drawn from the merged list, none left out newer than one shown |
| Questions.ShownAreMerged | app/questions.tsx:105-129 | every question shown is one of the merged questions |
| Questions.ShownBeforeFetch | app/questions.tsx:105-129 | before the server's list arrives, only questions asked on the page are shown |
| Questions.UpdateAnswers | app/questions.tsx:174-191 | only answers with the id change, the list keeps its length and order |
| Questions.UpdateQuestions | app/questions.tsx:131-149 | only questions with the slug change, the list keeps its length and order |
| Questions.NewLocalAnswer | app/questions.tsx:151-172 | a new answer is empty, without annotations, loading, not completed, with the announced id, party and index |
| Questions.ApplyEvent | app/questions.tsx:250-311 | one event keeps the list's length and every question's text and time, leaves questions without the current slug alone, and switches the current slug exactly on `question.created` |
| Questions.ApplyEvents | app/questions.tsx:250-311 | the event loop keeps the list's length and every question's text and time |
| Questions.AskOutcome | app/questions.tsx:208-324 | `ask` adds one question at the end, with the asked text and the time of asking |
| Questions.AnswerStartedAddsOne | app/questions.tsx:280-289 | `answer.started` appends exactly one answer with the announced id, party and index, empty, loading and not completed; nothing else changes |
| Questions.AnswerDeltaAppends | app/questions.tsx:291-300 | `answer.delta` appends the text, and the annotations or nothing, to the answers with the id; other answers and fields are untouched |
| Questions.AnswerCompletedMarks | app/questions.tsx:302-308 | `answer.completed` marks the answers with the id completed and no longer loading, leaving text and annotations |
| Questions.QuestionCreatedRenames | app/questions.tsx:261-270 | `question.created` moves the current question to the server's slug, keeps it loading, and makes later events follow that slug |
| Questions.QuestionCompletedStopsLoading | app/questions.tsx:272-278 | `question.completed` only stops the question loading |
| Questions.VisitedSlugs | app/questions.tsx:260-270 | the slugs an ask applies events to include the one it starts with |
| Questions.ApplyEventsFrame | app/questions.tsx:250-311 | the event loop keeps the list's length, ends on the slug of the last `question.created`, and leaves questions of never-visited slugs alone |
| Questions.ApplyEventsCarriesAsked | app/questions.tsx:250-311 | the question under the current slug follows the slug, keeps its text, time and error, and gains one answer per `answer.started` |
| Questions.AskOutcomeSpec | app/questions.tsx:208-324 | `ask` adds exactly the asked question at the end, with its text, time and final slug, one answer per `answer.started`, no longer loading, with an error message exactly when reading failed; unvisited questions are unchanged |
| Questions.LocalQuestions.constructor | app/questions.tsx:102 | the page starts with no local question |
| Questions.LocalQuestions.UpdateQuestion | app/questions.tsx:131-149 | the state becomes `UpdateQuestions` of the old state |
| Questions.LocalQuestions.Shown | app/questions.tsx:206-207 | the page shows at most five questions from its current local state, newest first, drawn from the merged list |
| Questions.LocalQuestions.Ask | app/questions.tsx:208-324 | the loop leaves the state at `AskOutcome` of the old state and the received events |
| Conversation.Wire | lib/atm/serialize.ts:47-85 | one delivered event per yielded event, in order, with its `type` tag and the client's clock reading |
| Conversation.WirePrefix | lib/atm/serialize.ts:47-85 | delivering a prefix of the events delivers a prefix |
| Conversation.WireStartedCount | lib/atm/serialize.ts:47-85 | the client receives exactly as many `answer.started` as the server yielded |
| Conversation.WireFinalSlug | app/questions.tsx:261-270 | when only the first event is `question.created`, the client ends on that question's slug |
| Conversation.CompleteAskTrace | lib/atm/parties.ts:21-62 | a complete ask yields the merged events between one `question.created` with the stored slug, which comes first, and `question.completed`, with one `answer.started` per party |
| Conversation.AskedQuestionAfterEveryPartyAnswers | app/questions.tsx:208-324 | after a full ask the asked question is the list's new last entry, with the server's slug and its text, not loading, without error, and one answer per party |

## Left out

- Concurrency and scheduling: `merge` from `ix` is any interleaving that keeps each party's order (`Parties.IsMergeRun`). Which interleaving happens, and whose error is rethrown when several parties fail, are left to the scheduler. Cancellation and backpressure are not modelled.
- Questions.LocalQuestions.Ask: overlapping asks are not modelled. Each `ask` is async and updates the shared list with functional `setLocalQuestions` calls; two asks in flight interleave those updates, but the method runs one ask's event loop to the end.
- I/O:
  - OpenAI: starting a run (`createAndRunStream` rejecting) is not modelled separately; a fault of the run appears as the stream fault.
  - Database: the store is the rows a read returns, plus the values an insert assigns. `getOrCreatePartyBySlug`, `findAllPartiesSlugs`, `createDefaultPartyAssistant`, `upsertPartyBySlug` and the migrations only write rows or list slugs, and are not modelled.
  - Supabase: its replies are inputs. The call to `auth.admin.signOut` in `destroySession`, which revokes the session on the server, is not modelled; only its effect on the cookies is. Its reply is ignored, as in the source.
- HTTP: the routes, the newline-delimited JSON encoding and decoding, and the shuffling of party slugs are not modelled; the transport is an ordered sequence of serialized events (`Conversation.Wire`). `fetch`, the status check and the body check are summarised as the optional error message passed to `Ask`.
- Randomness and clocks: nanoid slugs and `Date.now()` readings are parameters. `refresh()` and the SWR fetching of `useQuestions` are not modelled; the server's list is the `remote` argument.
- Questions.Ask: a received value that is falsy is skipped by the source; the model receives only events.
- Header names: the case-insensitive lookup of the Authorization header is not modelled; the header value is given as it is after the platform's header normalisation, which trims spaces and tabs at both ends.
- Nullable columns: the `completed` columns are nullable in the schema. `answers.completed` is written explicitly on insert; `questions.completed` is not written by `createQuestion` and gets the column default false. Both are set true on completion and never to null, so they are modelled as `bool`. Annotations are opaque values.
- Parties.QueryQuestions: `inArray` with an empty list is modelled as matching nothing, and the store's row order is the input order.
- lib/atm/errors.ts is not part of this model; its error classes appear as constructors of the error datatypes.
- Questions.SortByCreatedAt: stability, meaning that equal creation times keep their merged order, holds by construction and is not stated as a lemma.
