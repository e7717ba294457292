# Spaced-repetition learning core, modelled in Dafny

This project models the core of a spaced-repetition study tool. The tool
keeps markdown question/answer cards. It asks for recall feedback from 1
(proficient) to 4 (completely forgotten) and schedules the next review of
each card from that feedback. It has two front ends over the same engine:

- a single-user command-line program with a JSON store keyed by question id;
- a multi-user web server with a SQLite table whose rows are owned by users,
  plus a browser client.

The model covers the following parts, one Dafny module each:

- `Schedule`: the scheduling engine, which applies one review to a question.
  It is a pure function over whole seconds: base interval × multiplier ×
  accuracy bonus, plus the level rule.
- `Due`: due-set selection and the statistics rollup over a listing.
- `CliStore`: the CLI's map store, the feedback tables, the keyboard-command
  reading, and the import loop with first-occurrence dedup and
  skip-if-exists.
- `TenantStore`: the user-scoped queries of the multi-user engine.
- `Identity`: id derivation from the hash of the trimmed text.
- `Dedup`: the dedup pass shared by both imports, with a reference
  definition.
- `Parser`: the line-based markdown parser `ParseContent`, and
  `ConvertToModel(s)`.
- `ParserRoundTrip`: rendering cards back to markdown, and the round trip.
- `Reset`: the progress-reset script, with the CLI's JSON file reduced to
  one record per question so that what the script writes can be read back
  by the CLI's `LoadData`.
- `WebApi`: the decision logic of the web server's learning endpoints.
- `LearningSession`: the browser's learning store (list, cursor, answer
  visibility).
- `RouteGuard`: the client route table, matched as the router library does
  by default (ASCII case ignored, one trailing slash allowed), and the
  navigation guard.
- `Common` and `Text`: shared vocabulary. This covers options and results,
  `strings.TrimSpace`, `strings.Split`/`Join` on newlines, and decimal
  rendering.

Some inputs from outside the model are passed in as parameters:

- The clock is a `now: int` parameter.
- SHA-256 is a `digest: string -> HexDigest` parameter, any function
  returning 64 characters.
- A server reply is a parameter of the client action that awaits it.

Go's unordered map iteration and SQL without `ORDER BY` are modelled as
"some order". Every contract holds for all such orders.

## Model

| member | source | states |
|---|---|---|
| Schedule.NewQuestion | internal/spacedrepetition/spaced_repetition.go:28-44 | A new question starts at level 4 with zero counts and no last review. Created and next-review times are both `now`, so it is immediately due. The invariant (level in 1..4, correct ≤ reviews) holds. |
| Schedule.IntervalSeconds | internal/spacedrepetition/spaced_repetition.go:92-123 | The interval equals base × multiplier × (1.2 with the bonus), exactly in whole seconds. It is positive for feedback 1..4 and zero off the table, as Go's missing-key map lookups give. |
| Schedule.Review | internal/spacedrepetition/spaced_repetition.go:76-137 | One review raises the review count by exactly 1. It raises the correct count by 1 iff feedback ≤ 2, and sets the last-review time to now. The next review is now + interval, with the bonus judged on the updated counts; it is strictly later than now for feedback 1..4. A miss raises the level by one, capped at 4. A hit lowers it by one iff the updated correct count is ≥ 3 and the level is > 1. Validity is preserved and identity and texts are untouched. |
| Schedule.IntervalTable | internal/spacedrepetition/spaced_repetition.go:92-123 | The concrete intervals: 17.5 days, or 21 days with the bonus, for "proficient"; then 5 d 9 h 36 min, 1 d 7 h 12 min, and 2 h. |
| Schedule.FreshProficientReview | internal/spacedrepetition/spaced_repetition.go:83-134 | A fresh question answered 1 gets counts 1/1 and its next review 21 days later, and stays at level 4. |
| Schedule.ThreeProficientReviews | internal/spacedrepetition/spaced_repetition.go:126-134 | Three "proficient" answers from a fresh question lower the level on the third answer only. |
| Schedule.ForgottenAtBestLevel | internal/spacedrepetition/spaced_repetition.go:92-134 | "Completely forgotten" at level 1 moves to level 2, with 2 h or 2.4 h depending on the updated accuracy. |
| Schedule.Min | internal/spacedrepetition/spaced_repetition.go:186-191 | The result is one of the arguments and no larger than either. |
| Schedule.Max | internal/spacedrepetition/spaced_repetition.go:193-198 | The result is one of the arguments and no smaller than either. |
| Due.SortByNextReview | internal/spacedrepetition/spaced_repetition.go:48-61 | The result is sorted ascending by next review and is a permutation (the same multiset) of the listing. |
| Due.SortedUnique | internal/spacedrepetition/spaced_repetition.go:48-61 | Any two sorted permutations of one listing agree position by position on their review times. So the due order is fixed up to ties. |
| Due.FilterDue | internal/spacedrepetition/spaced_repetition.go:155-161 | Membership in the result is exactly membership in the listing plus being due. Distinct listings stay distinct. |
| Due.StatsOf | internal/spacedrepetition/spaced_repetition.go:146-183 | The rollup reports the listing size and the due count, which is at most the total. The review and correct totals are the sums of the counters over the listing, and the accuracy is 100·correct/reviews, or 0 when there were no reviews. |
| Due.Accuracy | internal/spacedrepetition/spaced_repetition.go:171-174 | The accuracy fraction equals 100·correct/reviews when reviews > 0, and is 0 otherwise. |
| Due.SumsBounded | internal/spacedrepetition/spaced_repetition.go:163-169 | Over valid questions, 0 ≤ total correct ≤ total reviews. |
| Due.AccuracyInRange | internal/spacedrepetition/spaced_repetition.go:163-174 | Over valid questions, accuracy lies in [0, 100]. |
| Due.ListingTotals | internal/spacedrepetition/spaced_repetition.go:163-169 | Summing the counters over a listing that holds each entry of a keyed collection once gives the collection's totals, whatever the order. |
| Due.SortKeepsMembers | cli_server.go:121-137 | Sorting keeps exactly the same questions. |
| TenantStore.AddQuestion | internal/spacedrepetition/spaced_repetition.go:28-44 | The insert fails iff the primary key is taken, by any user. Otherwise exactly one row is added, owned by the user and in the initial state. Existing rows are untouched. |
| TenantStore.GetQuestion | internal/spacedrepetition/spaced_repetition.go:64-73 | A question is found iff a row with that id belongs to the user, and it is that row's question. |
| TenantStore.UpdateReview | internal/spacedrepetition/spaced_repetition.go:76-137 | Fails with not-found iff the user does not own the id; on failure nothing is written. On success only that row changes, to the reviewed question. |
| TenantStore.DeleteQuestion | internal/spacedrepetition/spaced_repetition.go:140-143 | The user's row is removed if present. Deleting a missing row is not an error. Afterwards the question cannot be found. |
| TenantStore.Select | internal/spacedrepetition/spaced_repetition.go:48-61 | Lists exactly the user's questions (the due ones when asked), each once. The count equals the size of the matching key set. |
| TenantStore.GetDueQuestions | internal/spacedrepetition/spaced_repetition.go:48-61 | Exactly the user's questions with next review ≤ now, ascending by next review. |
| TenantStore.GetStats | internal/spacedrepetition/spaced_repetition.go:146-183 | The total is the user's question count and `due` is the size of the due set. The review and correct totals are the sums of the counters over exactly the user's rows. Accuracy is 100·correct/reviews, or 0 without reviews. Under validity, correct ≤ reviews and accuracy is in [0, 100]. |
| TenantStore.Owned | internal/spacedrepetition/spaced_repetition.go:147-148 | The user's questions, keyed by id: exactly the keys the user owns, each holding that row's question. |
| TenantStore.OwnedListing | internal/spacedrepetition/spaced_repetition.go:147-148 | A listing of the user's questions, each once, lists exactly the user's keyed questions. |
| TenantStore.DueCount | internal/spacedrepetition/spaced_repetition.go:155-161 | Counting the due questions of the full listing gives the size of the due selection. |
| TenantStore.OperationsPreserveInvariant | internal/spacedrepetition/spaced_repetition.go:28-143 | Add, review and delete keep every row keyed by its id and valid. They never change another user's rows. |
| CliStore.AddQuestion | cli_server.go:100-118 | Adding is idempotent: an existing id leaves the map untouched. Otherwise exactly that key is added, in the initial state. |
| CliStore.AddIdempotent | cli_server.go:100-118 | Adding the same id twice equals adding it once, whatever the second call's arguments. |
| CliStore.GetQuestion | cli_server.go:140-145 | Found iff the id is a key, with that entry's question. |
| CliStore.UpdateReview | cli_server.go:148-210 | Returns true iff the id is present. On false the map is unchanged. On true the entry becomes the engine's reviewed question and no other entry changes. |
| CliStore.DeleteQuestion | cli_server.go:213-220 | Returns true iff the key was present. Exactly that key is removed; the other entries are unchanged. |
| CliStore.DeleteUndoesAdd | cli_server.go:100-118 | Deleting a freshly added id returns true and restores the original map. |
| CliStore.GetDueQuestions | cli_server.go:121-137 | Exactly the stored questions due at `now`, sorted ascending by next review, one per due key. |
| CliStore.GetStats | cli_server.go:223-247 | `total_questions` is the map size and `due_questions` is the size of the due set. The totals are the sums of the counters over all entries. Accuracy is 0 without reviews and otherwise 100·correct/reviews. Under validity it lies in [0, 100]. |
| CliStore.TotalsBounded | cli_server.go:227-238 | Over valid entries the correct total never exceeds the review total. |
| CliStore.OperationsPreserveInvariant | cli_server.go:100-220 | Add, review and delete keep every entry valid and stored under its own id. |
| CliStore.FeedbackTables | cli_server.go:466-490 | Every feedback-map value is in 1..4. The label of f maps back to f, and so does the digit for f. |
| CliStore.ReadFeedback | cli_server.go:809-846 | The trimmed input is matched against quit, delete and skip first. A rating is read iff the trimmed input is a feedback-map key, and its value is in 1..4. |
| CliStore.RatingIsInRange | cli_server.go:844-846 | A rating read from the keyboard keeps a valid question valid and schedules it strictly later. |
| CliStore.Fresh | cli_server.go:688-699 | The questions kept are exactly those whose trimmed text is not already stored. |
| CliStore.ImportLoop | cli_server.go:693-703 | imported is the number of fresh questions, and imported + skipped is the number of unique questions. Exactly the fresh ids are added, and existing entries are untouched. |
| CliStore.Import | cli_server.go:650-703 | An empty parse is an error. Otherwise duplicates + imported + skipped equals the number parsed, and the store only grows. |
| CliStore.ImportLoopAdds | cli_server.go:693-702 | A fresh question whose id is not taken, and is not shared by another question, ends up stored under "q_" + Hash(text) in the initial state. |
| CliStore.ImportLoopTexts | cli_server.go:688-702 | A store keyed by text stays keyed by text, and its texts grow only by imported texts. |
| CliStore.ImportLoopAllKnown | cli_server.go:696-698 | When every text is already stored, the loop adds nothing and skips everything. |
| CliStore.ImportedTextsExist | cli_server.go:688-702 | After an import, every input text is stored, provided the hash does not collide on the texts involved. |
| CliStore.ReimportImportsNothing | cli_server.go:633-703 | Running the import twice leaves the store as the first run did. The second run imports nothing and skips every unique question. |
| Reset.ResetQuestion | scripts/clear_learning_data.go:56-70 | Id, texts, source and creation time are kept. The level becomes 1, the counts 0 and there is no last review. The question is due exactly from `now`. |
| Reset.ResetIdempotent | scripts/clear_learning_data.go:56-70 | Resetting a reset question equals resetting once. |
| Reset.ResetForgetsReview | scripts/clear_learning_data.go:56-70 | A reset undoes any review. |
| Reset.ResetVersusNew | scripts/clear_learning_data.go:56-70 | A reset fresh question differs from a new one only in its level: 1 instead of 4. |
| Reset.ClearJsonData | scripts/clear_learning_data.go:72-112 | The loop with the corrected record from the Findings table, which writes null rather than the script's empty text. A missing file gives count 0. Otherwise the key set is kept, every record is reset with the clock read for that record, and the count is the number of records. |
| Reset.ClearJsonDataAsWritten | scripts/clear_learning_data.go:72-112 | The loop as written: the same key set and count, with every record the script's record carrying the empty last-review text. So any non-empty file it writes loads as the empty store. |
| Reset.ClearEntries | scripts/clear_learning_data.go:93-96 | Every entry is replaced, under its own key, by the given reset of it at the clock reading for that key; no key is added or lost. |
| Reset.ClearedStoreIsFresh | scripts/clear_learning_data.go:93-96 | After a clear, once the clock has passed every reset time, every question is valid and due, and both totals are zero. |
| Reset.Decode | cli_server.go:20-31 | A record decodes iff its last-review field is not the empty text (the CLI's `*time.Time` accepts null or a time), and the decoded question encodes back to the record. |
| Reset.DecodeEncode | cli_server.go:20-31 | Every question survives an encode and decode. |
| Reset.Load | cli_server.go:67-85 | One record that fails to decode leaves the store empty. Otherwise the store holds exactly the decoded records. |
| Reset.Save | cli_server.go:89-96 | The file has the store's keys and each record decodes to the stored question. |
| Reset.LoadSaved | cli_server.go:67-96 | Loading a saved store gives back the store. |
| Reset.ResetRecordAsWritten | scripts/clear_learning_data.go:56-70 | The script's record carries an empty last-review text, so it never decodes; apart from that field it is the corrected record. |
| Reset.ResetRecord | scripts/clear_learning_data.go:56-70 | The corrected record (last review null) decodes to the reset question. |
| Reset.ClearedFileLoadsEmpty | cli_server.go:46-85 | A non-empty store cleared as written loads back as the empty store. |
| Reset.ClearedFileLoadsReset | scripts/clear_learning_data.go:72-112 | A store cleared with the corrected record loads back as every question reset. |
| Identity.HashIgnoresSurroundingSpace | internal/spacedrepetition/spaced_repetition.go:201-204 | Only the trimmed text is hashed: surrounding white space never changes the hash, and two texts with the same trimmed form hash alike. |
| Identity.CliId | cli_server.go:694 | The id is "q_" followed by the 64-character hash. |
| Identity.WebId | web_server.go:447 | The id is "q_" + decimal user + "_" + hash, and its last 64 characters are the hash. |
| Identity.SameTrimmedTextSameIds | internal/spacedrepetition/spaced_repetition.go:201-204 | Texts equal after trimming get the same CLI and web ids. |
| Identity.WebIdInjective | web_server.go:447 | A web id determines its user and its hash. |
| Identity.WebIdsSeparateUsers | web_server.go:447 | The same text under two different users gets two different ids. |
| Dedup.DedupBy | cli_server.go:661-674 | The kept elements have pairwise distinct keys and cover every key of the input. Kept + duplicates equals the input length. |
| Dedup.DedupKeepsFirstOccurrences | web_server.go:426-439 | The pass keeps exactly the first element with each key, in input order. Every other element is counted as a duplicate. |
| Dedup.UniqueFromInput | cli_server.go:661-674 | Every kept element is an input element. |
| Dedup.DedupIdempotent | cli_server.go:661-674 | A second dedup pass changes nothing and finds no duplicates. |
| Dedup.DistinctKeysUnchanged | web_server.go:426-439 | Input with distinct keys passes through unchanged. |
| Text.JoinSplit | internal/parser/parser.go:93 | Joining the newline-split pieces gives back the content. |
| Text.SplitJoin | internal/parser/parser.go:113 | Splitting a join of newline-free lines gives back the lines. |
| Text.TrimIdempotent | internal/parser/parser.go:99 | `TrimSpace` is idempotent. |
| Text.DecInjective | web_server.go:447 | The decimal rendering of a user id is injective. |
| Parser.MarkersExclusive | internal/parser/parser.go:98-105 | No line is both a question marker and an answer marker. |
| Parser.Positions | internal/parser/parser.go:98-105 | Marker positions are valid line indexes. |
| Parser.PositionsFacts | internal/parser/parser.go:98-105 | The collected positions are strictly increasing and hold that kind. Every line of that kind is among them. |
| Parser.ParseContent | internal/parser/parser.go:86-135 | The parse succeeds iff every paired slice is in bounds. There are at most min(#q, #a) pairs. Every emitted pair has non-empty trimmed texts and the given source file. |
| Parser.ParseContentPairs | internal/parser/parser.go:108-130 | On success, entry j of the output is built from the j-th kept pair index, in ascending question-marker order. Its question is the trimmed join of the lines strictly between the i-th question marker and the i-th answer marker. Its answer runs from after that answer marker to the next question marker or the end. Its source is the given file. Every pair with two non-empty texts appears, and no other. |
| Parser.PairFromOrigins | internal/parser/parser.go:108-130 | The pairing loop from pair i on succeeds when every slice is in bounds, and emits exactly the kept pairs from i on, in order. |
| Parser.AlternatingParsesClean | internal/parser/parser.go:98-122 | When markers alternate q, a, q, a, parsing succeeds and no emitted text contains a marker line. |
| Parser.CleanPairs | internal/parser/parser.go:108-122 | In an alternating layout every pair's slices are in bounds, and its texts are free of marker lines. |
| ParserRoundTrip.RenderParses | internal/parser/parser.go:86-135 | Parsing the `# q` / question / `# a` / answer rendering of well-formed, marker-free pairs returns exactly those pairs, in order. |
| Parser.ConvertToModel | internal/parser/parser.go:176-190 | The row is owned by the user, keyed "q_" + Hash(text), at level 4, and carries the texts and source. Every other field is Go's zero value. |
| Parser.ConvertToModels | internal/parser/parser.go:192-200 | One row per pair, same length and order. |
| Parser.ConvertToModelsAppend | internal/parser/parser.go:192-200 | Converting a concatenation converts each part. |
| WebApi.Summaries | web_server.go:300-311 | One summary per due question, in the engine's order. Each carries exactly id, texts, counts and source. |
| WebApi.GetDueQuestionsHandler | web_server.go:260-320 | needs_init iff the user has no questions. An empty success iff the user has questions but none are due. Otherwise there are summaries of a sorted listing of exactly the due questions, and total = count > 0. |
| WebApi.DueBody | web_server.go:273-319 | The body has success false only for needs_init, which is written inside `data`. The top level never carries it. |
| WebApi.UpdateReviewHandler | web_server.go:322-357 | A body outside the binding rules (empty id, feedback outside 1..4) is refused and writes nothing. A question the user does not own is not found and writes nothing. Otherwise only that row is reviewed, strictly later than now. The returned stats are the user's rollup after the review: counts, sums and accuracy. |
| WebApi.DeleteQuestionHandler | web_server.go:359-394 | An empty id is refused. Any other id succeeds and the question is gone afterwards. Other rows are unchanged, and the total drops by one iff the user owned it. The returned stats are the user's rollup after the delete. |
| WebApi.ImportLoop | web_server.go:441-466 | imported + skipped + failed equals the number of unique questions. Existing rows are kept, other users are untouched, and rows stay keyed by id. |
| WebApi.ImportLoopAdds | web_server.go:449-465 | The store grows by exactly the imported count, and every added row is a fresh row of one of the questions, owned by the user, at level 4 and keyed by its id. |
| WebApi.ImportLoopSkips | web_server.go:449-452 | On questions with distinct texts, the skipped count is the number of questions whose text the user already had before the loop. |
| WebApi.InitDatabaseHandler | web_server.go:396-487 | Nothing parsed is a bad request and writes nothing. Otherwise `duplicates` is the dedup pass's count, `imported` is the number of rows added, and `skipped` is the number of unique questions whose text the user already had. Together they are at most the number parsed. The store only grows, other users are untouched, and the stats are the user's rollup afterwards. |
| WebApi.ImportLoopCovers | web_server.go:445-466 | After the loop every question is either a text the user has or a stored id. |
| WebApi.CoveredLoopIsIdle | web_server.go:449-457 | On a store that covers every question, the loop changes nothing and imports nothing. |
| WebApi.ReimportImportsNothing | web_server.go:441-466 | Running the import loop twice: the second run leaves the store unchanged and imports nothing. |
| WebApi.ImportIsolatesUsers | web_server.go:445-466 | An import for one user never touches another user's rows. The same text gets distinct ids for distinct users. |
| LearningSession.Current | frontend/src/stores/learning.ts:21-23 | A current question exists iff the index is inside the list, and it is the element at the index. |
| LearningSession.ProgressText | frontend/src/stores/learning.ts:30-33 | The text reads "pos/total". total is the list length. pos is index + 1 while the cursor is inside the list, total once it is at or past the end, and 0 for an empty list. |
| LearningSession.EmptyProgress | frontend/src/stores/learning.ts:31 | An empty list reads "0/0". |
| LearningSession.ShowAnswer | frontend/src/stores/learning.ts:134-136 | The answer becomes visible and the current question is unchanged. |
| LearningSession.Next | frontend/src/stores/learning.ts:138-141 | The index goes up by exactly one and the answer is hidden. |
| LearningSession.WalkInOrder | frontend/src/stores/learning.ts:21-33 | Stepping through a freshly loaded list visits the questions in list order, with progress "k+1/n" on the k-th. After the last step no question is current and the progress stays "n/n". |
| LearningSession.ShowAnswerKeepsPlace | frontend/src/stores/learning.ts:134-141 | Revealing the answer changes neither the next step nor the progress text. |
| LearningSession.Reset | frontend/src/stores/learning.ts:143-147 | The list is emptied, the index is 0 and the answer is hidden. |
| LearningSession.FetchDueQuestionsAsWritten | frontend/src/stores/learning.ts:47-73 | On success the list is replaced and the cursor reset. The import prompt is raised iff a failed body has a top-level needs_init. |
| LearningSession.NeedsInitIsLost | frontend/src/stores/learning.ts:59 | Against what the server writes, the as-written fetch never raises the import prompt. |
| LearningSession.FetchDueQuestions | frontend/src/stores/learning.ts:47-73 | As above, but the prompt is raised iff the failed body's `data` holds needs_init. |
| LearningSession.FetchFollowsServer | frontend/src/stores/learning.ts:47-73 | With the corrected reading the prompt is raised iff the server said needs_init. Nothing due gives the initial state. A due list becomes the session, with the cursor on its first question. |
| LearningSession.SubmitFeedback | frontend/src/stores/learning.ts:75-94 | No current question means no request and false. Success iff the reply succeeded, which moves to the next question. Failure leaves the session alone. |
| LearningSession.RemoveAt | frontend/src/stores/learning.ts:104 | `splice(i, 1)` removes exactly position i and keeps the rest in order. |
| LearningSession.DeleteCurrent | frontend/src/stores/learning.ts:96-118 | No current question means no request and false. On success the current element is removed and the others are kept in order. The cursor stays put while it is still inside the list; otherwise it moves to the new last question, or to 0 when the list emptied. Failure leaves the session alone. |
| LearningSession.DeleteAdvances | frontend/src/stores/learning.ts:104-109 | After a delete the cursor is on the following question, or on the new last one. No current question remains only when the list emptied. |
| RouteGuard.Match | frontend/src/router/index.ts:11-41 | A record matches iff some record's path equals the requested path up to ASCII case and one trailing slash, and the match is such a record. |
| RouteGuard.KeyOfPlain | frontend/src/router/index.ts:38-41 | A path without capitals or a trailing slash is its own matching key. |
| RouteGuard.MatchByKey | frontend/src/router/index.ts:11-41 | Matching selects the record by the path's key: "/login", "/register", "/dashboard", "/learn", or "" for the root; any other key matches nothing. |
| RouteGuard.TargetMatches | frontend/src/router/index.ts:57-69 | The guard's two redirect targets match the dashboard and login records. |
| RouteGuard.ResolveCases | frontend/src/router/index.ts:11-41 | Any spelling of the four named paths (capitals, a trailing slash) resolves in place under that name. "" and "/" redirect to the dashboard. Any other path gets no name. |
| RouteGuard.ResolveIgnoresCaseAndSlash | frontend/src/router/index.ts:38-41 | Two paths with the same key resolve to the same name. |
| RouteGuard.Guard | frontend/src/router/index.ts:44-72 | Navigation is allowed iff the target is public exactly when there is no token. A redirect goes to /dashboard with a token and to /login without one. |
| RouteGuard.RedirectTargetAllowed | frontend/src/router/index.ts:51-71 | The guard's own redirect target resolves in place to the dashboard or login page and is allowed under the same token state. |
| RouteGuard.NoRedirectLoop | frontend/src/router/index.ts:11-72 | Every navigation settles after at most one guard redirect. |
| RouteGuard.AnonymousNavigation | frontend/src/router/index.ts:11-72 | Without a token every navigation ends on a public page. Registration or login, in any case and with or without a trailing slash, is shown where asked; anything else lands on /login. |
| RouteGuard.AuthenticatedNavigation | frontend/src/router/index.ts:11-72 | With a token a navigation never ends on a public page. Login, registration and the root, in any spelling the router accepts, all land on the dashboard. |
| RouteGuard.ProtectedResolvesInPlace | frontend/src/router/index.ts:11-41 | Every path whose key is not login, registration or the root resolves to itself and to a page that is not public. |
| RouteGuard.AuthenticatedStays | frontend/src/router/index.ts:11-66 | With a token, any path whose key is not login, registration or the root is shown where it was asked for. |

## Left out

- Persistence is not modelled beyond the record level. The JSON file is a map of records, one per question, and `LoadData`/`SaveData` are `Reset.Load`/`Reset.Save`; file I/O, the `last_updated` field and JSON text are left out. gorm, SQLite and `clearSQLiteData` are not modelled. Both stores are maps.
- Database errors other than the duplicate key and not-found are not modelled. The `500` answers of the handlers are left out for the same reason.
- Soft delete is not modelled. `DeleteQuestion` on the tenant store removes the row; the source sets `deleted_at` (internal/models/question.go:23). With soft delete, a re-import after a delete would fail its insert on the still-present primary key. The question would then count as neither imported nor skipped. The model instead re-adds it.
- Transport is not modelled: HTTP routing, JSON encoding, registration, login, profile and the authentication middleware. Signing and checking tokens happens in a foreign library. The client's axios layer and auth store are left out too, and the token is a parameter of the guard.
- Terminal interaction is not modelled: colour output, the training loop, the delete confirmation prompt, printing. Of the training loop only the reading of one command (`ReadFeedback`) is modelled.
- Filesystem traversal and configuration (`NewQuestionParser`, `ParseFile`, `ParseAllFiles`) are not modelled. The import takes the parsed list as input.
- The CLI's own `ParseContent` copy (cli_server.go:319-403) is not modelled. Its matcher ignores its pattern argument, so it is not the intended behaviour; the parser in internal/parser/parser.go is modelled instead.
- Floating point is not modelled. Intervals are exact whole seconds and the accuracy is an exact fraction; the `> 0.8` test is written as 5·correct > 4·reviews. The `progress` percentage, the `%.2f` rendering and any nanosecond truncation of Go's float-to-duration conversion are left out.
- `Identity.Hash`: SHA-256 is a parameter returning 64 characters. Collision-freedom is assumed only where a lemma states it as a precondition.
- Concurrency is not modelled; the source has no locks either.
- Sort stability: `sort.Slice` is not stable, so the CLI due list is specified as any sorted permutation. `Due.SortedUnique` shows all such orders agree on review times.
- The statistics copied by the browser store after a review or delete are not modelled.
- RFC 3339 timestamps are not modelled: times are integers. A last-review field is null, a time, or the empty text; only the empty text fails to decode.
- `Reset.ClearJsonData`: it writes the corrected record (null last review) from the Findings table, not the script's empty text; the script's own loop is `Reset.ClearJsonDataAsWritten`.
- `Reset.ClearJsonData`: the script reads the clock once per question, in Go's map order. The model takes the clock as a function of the key, so it holds for every reading but does not relate readings to the order.
- `CliStore.ImportLoop`: one clock reading `now` stamps every inserted question. The source's `AddQuestion` reads `time.Now()` on each call (cli_server.go:102), so questions imported together get distinct, increasing creation and next-review times in import order. The model does not promise that order.
- `CliStore.ImportLoopAdds`: states each added question's initial state at the one `now` of the loop, not at a reading of its own (cli_server.go:102).
- `WebApi.ImportLoop`: one clock reading `now` stamps every inserted row. The engine's `AddQuestion` reads `time.Now()` per insert (spaced_repetition.go:29), so the rows' times, and with them the `ORDER BY next_review` due order, follow import order; the model does not promise that order.
- `WebApi.ImportLoopAdds`: states each added row as `NewRow` at the one `now` of the loop, not at a reading of its own (spaced_repetition.go:29).
- `WebApi.UpdateReviewHandler`: the review and the stats use one `now`. The engine reads the clock once in `UpdateReview` (spaced_repetition.go:82) and again in `GetStats` (spaced_repetition.go:156), so a question that becomes due between the two readings is counted by the source and not by the model.
- `WebApi.InitDatabaseHandler`: the inserts and the stats use one `now`, while the source reads the clock per insert and again in `GetStats` (spaced_repetition.go:29 and 156).
- `WebApi.InitDatabaseHandler`: failed inserts are not reported by name. They are the unique questions neither imported nor skipped, and the source drops them silently.
- `Parser.ParseContent`: where the Go code slices out of range (parser.go:113 and 121) it panics. The model returns `Err(SliceOutOfRange)` instead, and does not model the panic unwinding.
- `RouteGuard.Match`: relative paths, percent-encoding, query strings and hashes are not resolved before matching. Only ASCII letters are folded for case; the router's case-insensitive regular expression has no `u` flag, so it does not fold other letters either.
- `RouteGuard.AuthenticatedStays` and `RouteGuard.ProtectedResolvesInPlace`: they do not promise anything for other spellings of login, registration or the root ("/LOGIN", "/register/"). The router sends those to public pages, and `RouteGuard.AuthenticatedNavigation` states where they land.
- `Schedule.Review`: feedback outside 1..4 is not excluded, as the source does not exclude it. The caller guards are modelled separately, in `CliStore.ReadFeedback` and `WebApi.BindsReview`.

## Findings

| source | as written | input that shows it | evidently intended | confidence | as-written member | corrected member |
|---|---|---|---|---|---|---|
| frontend/src/stores/learning.ts:59 | The client reads `needs_init` at the top level of the reply body. The server writes it inside `data` (web_server.go:280-284), and the API layer hands the body over unchanged. | A user with no questions opens the learning page. The reply is `{success: false, data: {needs_init: true}}`, and the fetch returns `{count: 0, needsInit: false}`. | The empty-knowledge-base prompt should appear: needsInit should be true exactly when the server says so. | not executed | LearningSession.FetchDueQuestionsAsWritten | LearningSession.FetchDueQuestions |
| scripts/clear_learning_data.go:68 | The reset writes `"last_reviewed": ""`. The CLI's `LastReviewed` is a `*time.Time` (cli_server.go:31), which accepts null or a time but rejects the empty string. `LoadData` then returns an error before assigning (cli_server.go:79-84), and `NewSpacedRepetition` ignores it (cli_server.go:61). | Any store with at least one question: after the reset, the CLI starts with no questions at all. | Write null for the last review, as `clearSQLiteData` writes nil, so that the CLI loads every question reset. | not executed | Reset.ResetRecordAsWritten | Reset.ResetRecord |
