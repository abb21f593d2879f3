# Live two-option polling: store, vote ingestion and display rules

A Dafny model of the core of a small Flask polling application. An operator
activates one poll at a time; participants vote "A" or "B" for the active
poll; display pages show the active poll live (with or without counts) and a
rotating grid of completed polls. The admin pages sit behind a shared secret.

Modules, one per source file:

- `Common` (`common.dfy`): the `Option` datatype (`None` stands for Python's `None`).
- `Models` (`models.dfy`), for `app/models.py`: the `Poll` and `Vote` rows; the
  tally `GetVoteCounts`; the activation rule `Activated`; and the class
  `PollStore`. The class holds the two tables as sequences and updates them in
  place. `ActivatePoll` is a loop that clears every flag, followed by a search
  for the target row. Its invariant `Valid` covers unique primary keys and the
  foreign key from votes to polls. Inserting a vote for a missing poll is
  rejected (with foreign-key checks switched on, as the tests configure the
  database), and deleting a poll cascades to its votes.
- `Responses` (`responses.dfy`), for `app/utils/responses.py`: `FormatPollResponse`.
- `Api` (`api.dfy`), for `app/routes/api.py`: the three guards of `vote()` in
  source order (`DecideVote`), the imperative `CastVote` that appends one vote,
  the JSON body and status code of its answer (`Respond`), and `DisplayData`.
- `Views` (`views.dfy`), for `app/__init__.py`: the view-models of `/display`,
  `/display-no-votes` and `/display-completed`. The last one is a loop over the
  inactive polls sorted newest first, with the zero-total guard on the bar
  heights.
- `Rotation` (`rotation.dfy`), for `static/js/display_completed.js`: the page
  count, the slice bounds, the modular page rotation as a class holding the
  script's closure state, and `formatPercent`.
- `Auth` (`auth.dfy`), for `app/middleware/auth.py`: the admin-secret gate.

Where the code does something other than what its surroundings suggest, the
model follows the code:

- `activate_poll` is documented as "activate a poll and deactivate all others"
  (`app/models.py:22`). With an id that names no poll, its body still clears
  every flag and then activates nothing, so no poll is left active
  (`app/models.py:23-26`). `Models.ActivatedActiveCount` states the behaviour
  as written.
- A successful `vote()` answers `{"success": true, "poll_id": id}`
  (`app/routes/api.py:43`). `tests/test_api.py:74-114` expects a `"poll"`
  object with the texts and counts instead. `Api.CastVote` returns the poll id,
  as the code does.
- The single-active rule is not an invariant of the store. Rows can be inserted
  with `is_active` already set, as the tests do. Only `activate_poll`
  re-establishes "at most one active poll". The answer column is free text, so
  "every answer is A or B" holds only for votes that came through `vote()`.

## Model

| member | source | states |
|---|---|---|
| `Models.NewPoll` | app/models.py:11-16 | a poll built from its required columns is inactive, because the `is_active` default is false, and keeps the given texts and creation time |
| `Models.GetVoteCounts` | app/models.py:28-38 | the A and B counts of a poll together never exceed that poll's number of votes |
| `Models.CountAnswerAppend` | app/models.py:30-36 | appending one vote raises exactly the count it matches by one and leaves every other count unchanged |
| `Models.CountAnswerZero` | app/models.py:30-36 | a count is 0 exactly when no vote has that poll id and that answer (the `or 0` case) |
| `Models.CountIgnoresOtherPolls` | app/models.py:30-31 | votes that belong to other polls do not change a poll's counts |
| `Models.TallyBound` | app/models.py:30-36 | count A + count B is at most the poll's vote total, with equality exactly when every vote of the poll answers "A" or "B" (the answer column is unconstrained) |
| `Models.FirstActive` | app/routes/api.py:27 | the active-poll lookup returns None exactly when no poll is active; otherwise it returns the first active poll in table order |
| `Models.TheActivePoll` | app/__init__.py:39 | when at most one poll is active, the lookup returns that poll |
| `Models.Activated` | app/models.py:21-26 | activation keeps the number of polls |
| `Models.ActivatedOnlyFlags` | app/models.py:23-26 | activation changes only `is_active`, with ids, texts and creation times untouched; activating the same id twice equals activating it once |
| `Models.ActivatedSelects` | app/models.py:23-26 | after activating a present id, that poll is active and every other poll is inactive; after activating an absent id, no poll is active |
| `Models.ActivatedActiveCount` | app/models.py:23-26 | whatever the flags were before, exactly one poll is active afterwards if the id is present and none if it is absent, so never more than one |
| `Models.FirstActiveAfterActivate` | app/models.py:24-26 | after activating a present id, the active-poll lookup returns that poll with its flag set |
| `Models.WithoutPoll` | app/models.py:18 | the polls table minus the deleted row holds exactly the other polls |
| `Models.VotesNotOf` | app/models.py:18 | the cascade keeps exactly the votes of the other polls |
| `Models.WithoutPollMultiset` | app/models.py:18 | the delete drops every row of the deleted poll and keeps each other row as often as the table held it |
| `Models.VotesNotOfMultiset` | app/models.py:18 | the cascade drops every vote of the deleted poll and keeps each other vote as often as the table held it |
| `Models.CascadeCounts` | app/models.py:18 | after the cascade the deleted poll has no votes, and every count of every other poll is unchanged |
| `Models.PollStore.Valid` | app/models.py:11-48 | the table constraints: unique poll and vote ids (lines 11, 47), every vote's `poll_id` names an existing poll (line 48); the next keys the counters hand out are not yet in use |
| `Models.PollStore.AddPoll` | app/models.py:8-16 | the row is built from its column values and gets a primary key no other poll has. Left unset, `is_active` takes its default and the new poll is inactive. The row is appended and the votes are unchanged |
| `Models.PollStore.AddVote` | app/models.py:47-50 | a vote is stored exactly when its `poll_id` names an existing poll (foreign key); it then gets a fresh id and is appended, and otherwise nothing changes |
| `Models.PollStore.ActivatePoll` | app/models.py:20-26 | the loop leaves the polls equal to `Activated` of the old polls, leaves the votes unchanged, and keeps the table constraints |
| `Models.PollStore.RemovePoll` | app/models.py:18 | deleting a poll removes it and, by cascade, exactly its votes, and keeps the table constraints |
| `Responses.FormatPollResponse` | app/utils/responses.py:1-23 | id, question and both answers are the poll's own fields; the counts are the poll's A and B tallies |
| `Responses.FormatWithoutVotes` | tests/test_utils.py:58-80 | a poll with no votes is shown with count_a = count_b = 0 |
| `Responses.FormatCountsTotal` | app/utils/responses.py:20-21 | when every stored answer is A or B, the shown counts add up to the poll's vote total |
| `Api.ErrorMessage` | app/routes/api.py:17-30 | each rejection has a non-empty text; the invalid-answer text, and only it, starts with "Invalid"; the no-active-poll text, and only it, starts with "No active poll", the phrase the tests look for |
| `Api.ErrorMessagesDistinct` | app/routes/api.py:19-30 | the three rejection texts are pairwise different |
| `Api.Respond` | app/routes/api.py:17-43 | `success` is true exactly when the status is 200, and exactly when the vote was recorded. A recorded vote carries its poll id and no error. A rejection has status 400, no poll id, and the rejection's error text |
| `Api.NoActivePollResponse` | tests/test_api.py:116-128 | a valid answer with no active poll is answered 400, not successful, with "No active poll" |
| `Api.DecideVote` | app/routes/api.py:17-30 | checks run in order. A missing or empty answer is "Answer is required". Any other answer than A/B is "Invalid answer", even with no active poll. A valid answer with no active poll is "No active poll". Success names an active poll |
| `Api.CastVote` | app/routes/api.py:13-43 | the outcome is `DecideVote` of the polls before the call, and does not depend on the notification. A rejection leaves the store unchanged. Success appends exactly one vote for the active poll with the given answer. The polls never change |
| `Api.VoteRaisesTally` | tests/test_api.py:83-114 | after a vote for a poll, that answer's count rises by one and the other count stays the same |
| `Api.DisplayData` | app/routes/api.py:46-55 | `{"poll": null}` exactly when no poll is active; otherwise the formatted response of an active poll |
| `Api.DisplayAfterVote` | tests/test_api.py:83-114 | right after a vote for the only active poll, the display data shows that poll with its total raised by one |
| `Views.Display` | app/__init__.py:35-48 | no poll exactly when none is active; otherwise an active poll with its A and B tallies |
| `Views.DisplayNoVotes` | app/__init__.py:50-55 | no poll exactly when none is active; otherwise an active poll, and no counts |
| `Views.LivePagesAgree` | app/__init__.py:39-55 | `/display` and `/display-no-votes` show the same poll |
| `Views.Inactive` | app/__init__.py:63-64 | the filtered query holds exactly the inactive polls, each as often as it occurs in the table, and no active poll |
| `Views.InactiveCount` | app/__init__.py:63-64 | the filter keeps every row except the active ones |
| `Views.InsertByCreation` | app/__init__.py:65 | inserting into a newest-first list keeps it newest first and adds exactly the one poll |
| `Views.SortNewestFirst` | app/__init__.py:65 | the ordered query is newest first and a permutation of its input |
| `Views.CompletedPolls` | app/__init__.py:63-65 | the completed-polls query is newest first and holds each inactive poll as often as the table does, and no active poll |
| `Views.CompletedPollsSpec` | app/__init__.py:62-65 | the completed list is a permutation of the inactive polls, never holds an active poll, is ordered newest first, and has one entry per inactive row |
| `Views.Percents` | app/__init__.py:73-79 | both bar heights are 0 exactly when the total is 0; otherwise they are count/total with a non-zero total |
| `Views.PercentsWhole` | app/__init__.py:74-76 | with a non-zero total the two bar heights make up the whole |
| `Views.EntryFor` | app/__init__.py:69-87 | an entry holds the poll, its A and B tallies and their guarded percentages |
| `Views.BuildEntries` | app/__init__.py:66-87 | the loop yields one entry per poll of the query result, in the same order, each with its tallies and guarded percentages |
| `Views.DisplayCompleted` | app/__init__.py:57-87 | one entry per completed poll (as many as there are inactive rows), in query order, each with its tallies. Every entry's poll is inactive, entries are newest first, and a zero total gives zero percentages |
| `Rotation.TotalPages` | static/js/display_completed.js:13 | the page count is ceil(n / 4): the pages cover all polls and the last page is not empty |
| `Rotation.PageBounds` | static/js/display_completed.js:94-96 | a valid page's slice starts at page*4, ends at most at n, and holds between 1 and 4 polls; it is a full page of 4 unless it reaches the end of the list, so it ends at min(page*4 + 4, n) |
| `Rotation.OnPageExactly` | static/js/display_completed.js:94-96 | each poll index lies on exactly one page, page i / 4, which exists |
| `Rotation.PageCards` | static/js/display_completed.js:94-101 | between 1 and 4 cards. Each card index is the global position `startIdx + idx`, and the card shows that poll. The cards are exactly the polls in the page's slice |
| `Rotation.Next` | static/js/display_completed.js:91 | the next page stays below the page count and wraps to 0 after the last page |
| `Rotation.PageAfterWraps` | static/js/display_completed.js:91 | within one cycle, rotation climbs from the start page and wraps to 0 once |
| `Rotation.EveryPollOncePerCycle` | static/js/display_completed.js:91-96 | over `totalPages` consecutive rotations, from any page, every poll is shown at exactly one step |
| `Rotation.Rotator.constructor` | static/js/display_completed.js:12-13 | rotation starts on page 0 with the page count derived from the list |
| `Rotation.Rotator.RotatePage` | static/js/display_completed.js:83-105 | the page moves to `Next`. The grid becomes that page's cards. The indicator becomes page + 1, between 1 and the page count |
| `Rotation.Start` | static/js/display_completed.js:4-6 | no rotation is set up exactly when there are 4 polls or fewer |
| `Rotation.FormatPercent` | static/js/display_completed.js:30-38 | the browser's percentages agree with the server's: 0/0 on a zero total |
| `Auth.RequireAdminSecret` | app/middleware/auth.py:5-19 | refused (403) exactly when neither the query secret nor the header secret equals the configured secret; otherwise the wrapped handler's answer |
| `Auth.EitherChannelSuffices` | tests/test_admin.py:35-42 | a correct query secret or a correct header secret is accepted, whatever the other channel carries |
| `Auth.MissingSecretForbidden` | tests/test_admin.py:24-26 | with a configured secret, a request carrying no secret is refused |
| `Auth.UnconfiguredSecretOpen` | app/middleware/auth.py:9-14 | with no configured secret, a request carrying no secret is let through, since None equals None |

## Left out

- Database engine and session plumbing (`app/database.py`), transactions and isolation. `get_session` is declared with an engine parameter but is called with none; that plumbing is not part of this model. The store is two in-memory sequences, and every operation is one atomic step.
- Foreign-key enforcement: the model rejects a vote for a missing poll, as SQLite does with `PRAGMA foreign_keys=ON`, which the tests set (`tests/test_models.py:13-17`). The engine created in `app/database.py:8` does not set it, and SQLite would then store such a vote.
- Primary keys: the database hands out fresh integers; the model uses counters and promises only freshness, not SQLite's exact rowid choice.
- Query order: `.first()` and unordered queries follow the order of the table sequence. Ties in `created_at` keep table order, which SQL leaves unspecified.
- Timestamps: `created_at` and the vote timestamp are abstract integers supplied by the caller, not `datetime.utcnow`.
- Socket.IO: the `vote_cast` emit, `app/main.py` and `static/js/display.js` are not part of this model. `Api.CastVote` takes a flag saying whether the emit failed and ignores it, as the swallowed exception does.
- The vote password: `require_vote_password` is imported but not defined in `app/middleware/auth.py`, so `Api.CastVote` models `vote()` after that check has passed.
- Floating-point percentages and rounding: bar heights are kept as exact fractions (`Views.Share`); only the zero-total guard is modelled.
- Templates, the Flask app factory, configuration loading, CORS, the redirect of `/`, the placeholder admin route, `escapeHtml`, `formatDate`, the fade timers and the missing-DOM-element check of the rotation script.
- The first grid of the completed-polls page is rendered by the server template, so `Rotation.Rotator.constructor` leaves the grid and the indicator unset until the first rotation.
- Admin create, edit, delete-guard and vote-count override: no code for them is part of this model. The model has only the row-level insert and the cascading delete declared in `app/models.py`.
