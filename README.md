# Riddle of the Day bot: a Dafny model

This project models the core of `main.py`, a Discord bot that posts a riddle each day and
keeps score. It covers these parts:

- **The riddle queue.** Records live in `submitted_questions.json`. At start-up the ID
  counter begins at the largest numeric ID in the queue. A submission is refused if its
  normalised text is already queued. Removal takes out the first record with a given ID.
  The next riddle is drawn from the records whose IDs are not yet used. When that pool is
  empty, the used set is cleared and the draw is from every record with an ID. The "fewer
  than 5 new riddles remain" warning is raised from `count_unused_questions`.
- **The score ledger.** `scores.json` holds, for each user, either a legacy bare integer
  or a record of insight points, contribution points and the riddles already credited.
  The ledger handles:
  - the once-a-day submission point;
  - the point for a correct answer, which goes to `contribution_points`;
  - the one-point penalty after five wrong guesses, clamped at zero;
  - the administrators' add/remove points form.
- **Ranks and displayed values.** A score's displayed value is the legacy integer, or
  insight plus contribution. `get_rank` gives the rank title: the top-scorer title first,
  then the streak title, then the tiers at 5/15/25/50.
- **The leaderboard and riddle list.** The leaderboard is sorted with Python's stable
  `sorted(..., reverse=True)`. It is split into pages of ten, and its view moves between
  pages with Previous/Next buttons. The `/listquestions` view is also paged, but its
  buttons turn the page before checking who pressed them (main.py:141-155), while the
  leaderboard's check first (main.py:406-428).
- **Answer handling** (`on_message`).
  - A user who submitted the riddle may not answer it.
  - A user who has solved it is ignored.
  - Five wrong guesses are allowed, and running out costs one point, once per riddle.
  - A correct answer credits a record user at most once per riddle and raises their streak.

Details that `main.py` fixes and the model follows:
- the rank tiers end at 5, 15, 25 and 50 points (main.py:70-79);
- a correct answer adds a contribution point (main.py:494);
- the leaderboard keeps table order among equal scores, with no user-ID tie-break (main.py:379);
- the next riddle is a random unused one (main.py:84-91).

Modules:
- `Wrappers`: `Option`, `Result`.
- `Text`: Python's `strip`, `lower`, `replace`, `isdigit`, `str(n)` and `int(s)` on ASCII.
- `Riddles`: riddle records, IDs, the duplicate key, the scans, the unused pool.
- `Ledger`: scores, awards, credits, deductions, adjustments, ranks.
- `Leaderboard`: the stable sort, the pages, and the classes `LeaderboardView` and `QuestionListView`.
- `Answers`: `on_message` as a transition on the answer session, plus lemmas about message sequences.
- `Bot`: the class `RiddleBot`. Its fields are the module-level globals of `main.py`, and
  its methods are the handlers that update them in place.

## Model

| member | source | states |
|---|---|---|
| Text.Strip | main.py:208-209 | the result has no white space at either end and is no longer than the input |
| Text.StripIsSlice | main.py:208-209 | the stripped text is the slice of the input that starts after its leading white space, and only white space lies outside it |
| Text.StripUnique | main.py:208-209 | any trimmed slice with only white space around it is the stripped text, so those properties determine `strip` |
| Text.Lower | main.py:211-213 | same length; every character lower-cased position by position |
| Text.RemoveSpaces | main.py:211-213 | no space remains; every other character is kept as often as it occurs |
| Text.RemoveSpacesAppend | main.py:211-213 | removing spaces works piece by piece, so the kept characters keep their order |
| Text.NewlinesToSpaces | main.py:208 | same length; every LF and CR becomes a space; other characters unchanged |
| Text.NatToString | main.py:100-103 | `str(n)` is a non-empty digit string with no leading zero, and is `"0"` for n = 0 |
| Text.DigitsRoundTrip | main.py:100-112 | reading back the digits of `str(n)` gives n, so an issued ID is counted by the start-up scan |
| Text.ParseInt | main.py:295-301 | `int(s)` succeeds exactly when the stripped text is digits after at most one sign |
| Text.ParseIntValue | main.py:295-301 | the value is that of the digits, negated after a minus sign |
| Text.ParseIntRoundTrip | main.py:295-301 | `int(str(n)) == n` |
| Text.NegativeParseIntRoundTrip | main.py:295-301 | `int("-" + str(n)) == -n`, so a negative quantity parses and is then refused as non-positive |
| Riddles.NumericId | main.py:111 | an ID counts only if truthy and all digits, and then with its integer value |
| Riddles.InitialMaxId | main.py:111-112 | the counter bounds every numeric ID in the loaded queue and is 0 or one of them |
| Riddles.IssuedKeyIsFresh | main.py:100-103 | the next ID issued after a counter bounding all IDs is not among them |
| Riddles.AppendIssued | main.py:218-224 | queuing a record under the next ID keeps the counter an upper bound of every ID |
| Riddles.KeysOf | main.py:177-185 | the set of IDs in the queue: each present ID is in it and nothing else |
| Riddles.FindDuplicate | main.py:211-216 | reports a duplicate exactly when some queued question has the same normalised key |
| Riddles.KeyBeforeStep | main.py:212-214 | one more step of the scan finds a key among the first i+1 records exactly when it was among the first i or is the next one |
| Riddles.StoredKeyOfSubmission | main.py:208-214 | a stored question normalises to the key it was submitted under |
| Riddles.ResubmissionIsDuplicate | main.py:208-224 | once a text is queued, submitting it again is refused |
| Riddles.FindRiddle | main.py:178-179 | finds no index exactly when no record has the ID, and otherwise the first matching index |
| Riddles.FirstWithIdUnique | main.py:179 | the first matching index is unique |
| Riddles.RemoveAt | main.py:183 | `pop(i)` keeps the other records in order and drops exactly one |
| Riddles.RemoveAtKeys | main.py:183 | removing a record introduces no ID |
| Riddles.KeysOfAppend | main.py:218-224 | appending a record adds exactly its ID |
| Riddles.CountUnused | main.py:81-82 | the count is the number of queue positions whose record has an unused or missing ID: all of them exactly when none is used, none exactly when all are |
| Riddles.UnusedPositionsCons | main.py:82 | the unused positions of a queue are its head, if unused, plus those of its tail |
| Riddles.MarkingUsedLowersCount | main.py:81-90 | marking a pool record's ID as used lowers the unused count |
| Riddles.MarkingUsedNeverRaisesCount | main.py:81-90 | marking any ID as used never raises the unused count |
| Riddles.LowOnRiddles | main.py:93-96 | the warning is raised exactly when fewer than five queue positions hold a record with an unused or missing ID |
| Riddles.Pool | main.py:85 | the pool is exactly the records with an ID that is not used |
| Riddles.PoolWithinUnusedCount | main.py:81-85 | the pool is never larger than the unused count |
| Ledger.ScoreValue | main.py:355-359 | displayed value: legacy as is, record as insight plus contribution; non-negative fields give a value at least each field |
| Ledger.UserTotal | main.py:349-359 | `/score` shows 0 for a user without an entry, and never a negative value on a non-negative ledger |
| Ledger.DailyAward | main.py:235-242 | one point and today's date when not yet awarded today; nothing otherwise; other users untouched |
| Ledger.DailyAwardOncePerDay | main.py:235-242 | a second submission on the same day earns nothing |
| Ledger.DailyAwardNextDay | main.py:235-242 | on another day the point is earned again |
| Ledger.CreditAnswer | main.py:482-501 | a record (a fresh one for a missing user) gains one contribution point and has the riddle appended to its credited list, unless it was credited already; a legacy entry gains one; insight and other users untouched |
| Ledger.CreditIdempotentForRecords | main.py:484-486 | crediting the same riddle twice to a record earns one point |
| Ledger.CreditedStaysCredited | main.py:484-494 | no credit, penalty or admin adjustment turns a record into a legacy entry or drops a credited riddle; crediting that riddle again changes nothing |
| Ledger.RecordEarnsOncePerRiddle | main.py:484-494 | over any sequence of credits, penalties and adjustments, a record user (or one without an entry) earns at most one point per riddle, and none once it is credited; the user keeps a record throughout, and once credited (before or by any credit in the sequence) the riddle stays credited |
| Ledger.CreditRepeatsForLegacy | main.py:497-500 | a legacy entry earns a point on every credit |
| Ledger.CreditKeepsAnsweredDistinct | main.py:485-486 | the credited-riddle list never repeats a riddle |
| Ledger.Deducted | main.py:516-522 | a record's contribution becomes max(0, c-1), with insight and the credited list kept; a legacy value becomes max(0, p-1); non-negative entries stay non-negative |
| Ledger.Deduct | main.py:514-524 | the user's entry is penalised as `Ledger.Deducted` says, a missing user gets a zero record, other users are untouched, and the user's total drops by at most one |
| Ledger.PointKindOf | main.py:287-292 | point type is "insight" or "contribution" after lower-casing |
| Ledger.Adjust | main.py:287-324 | rejects a bad type, then a non-positive or non-integer quantity; with both valid it succeeds exactly unless the entry is a legacy integer; adds, or subtracts clamping at zero, only the chosen field; a missing user starts from a zero record |
| Ledger.AdjustedRecord | main.py:316-322 | the chosen field grows by the quantity, or shrinks clamped at zero; the other field and the answered list stay as they were; non-negative records stay non-negative |
| Ledger.AddThenRemoveRecord | main.py:317-322 | on one record, adding a positive quantity to a field and then removing it gives back the record |
| Ledger.AddThenRemoveRestores | main.py:317-322 | removing what was just added restores the record exactly |
| Ledger.RemoveClampsAtZero | main.py:321-322 | removing at least the field's value leaves it at zero |
| Ledger.TopScore | main.py:64-65 | `max(scores.values())` yields a comparable integer exactly when the table is non-empty and holds only legacy entries |
| Ledger.MaxOf | main.py:65 | the maximum of a non-empty set is in it and bounds it |
| Ledger.TopScoreIsMax | main.py:64-67 | the maximum computed by `get_rank` equals a score exactly when that score is the top one |
| Ledger.RankOf | main.py:63-79 | top-scorer title iff the score is the positive top score, else the streak title iff streak >= 3, else the tier |
| Ledger.Tier | main.py:70-79 | every score falls in exactly one tier |
| Ledger.TierMonotone | main.py:70-79 | a higher score never gives a lower tier |
| Ledger.TiedTopScorersShareTitle | main.py:64-67 | users tied at the top all get the top-scorer title |
| Leaderboard.Insert | main.py:379 | inserting keeps every entry (multiset) and adds one |
| Leaderboard.InsertKeepsOrder | main.py:379 | inserting into an ordered list keeps it ordered |
| Leaderboard.SortByScore | main.py:373-379 | highest value first, a permutation of the table |
| Leaderboard.SortIsStable | main.py:379 | entries with the same value keep their table order |
| Leaderboard.TotalPages | main.py:380 | at least one page; one page for no entries; otherwise the fewest pages of ten holding all |
| Leaderboard.ListPageCountAgrees | main.py:123 | the riddle list's page formula equals the leaderboard's |
| Leaderboard.PageEntries | main.py:384-390 | page p holds the entries from position p times the page size on: a full page, the rest of the list on the last page, none past the end |
| Leaderboard.EntryOnItsPage | main.py:384-390 | each entry appears on the page and row its position gives, within the page count |
| Leaderboard.PageInRangeNotEmpty | main.py:125-128 | a page inside the count of a non-empty list is not empty |
| Leaderboard.PageKeepsOrder | main.py:384-390 | a page of the sorted list is sorted |
| Leaderboard.LeaderboardView.constructor | main.py:369-381 | the view starts on page 0 with the sorted table and its page count |
| Leaderboard.LeaderboardView.Shown | main.py:383-390 | the rows on show are the sorted entries from position ten times the current page on, at most ten of them; they are sorted and not empty for a non-empty table |
| Leaderboard.LeaderboardView.Previous | main.py:406-416 | another user's press is refused; otherwise it moves back one page or reports the first page |
| Leaderboard.LeaderboardView.Next | main.py:418-428 | another user's press is refused; otherwise it moves on one page or reports the last page |
| Leaderboard.QuestionListView.constructor | main.py:117-123 | the view starts on page 0 with the list's page count |
| Leaderboard.QuestionListView.Shown | main.py:125-128 | the riddles on show are those from position `per_page` times the current page on, at most one page of them, and not empty for a non-empty list |
| Leaderboard.QuestionListView.Previous | main.py:141-147 | moves back one page if it can, even for another user's press, which is then refused the update |
| Leaderboard.QuestionListView.Next | main.py:149-155 | moves on one page if it can, even for another user's press, which is then refused the update |
| Answers.RevealCountdown | main.py:526-533 | minutes and seconds (under 60) add up to the time left until 23:00, zero once it has passed |
| Answers.Solve | main.py:478-501 | a correct answer adds the user to the solvers; if creditable, one point and one streak day are added for that user only and the table is saved |
| Answers.Miss | main.py:510-524 | a wrong guess counts one more attempt; reaching five for the first time penalises once and saves |
| Answers.OnMessage | main.py:457-524 | nothing happens with no open riddle, for the submitter, for a solver, or after five guesses, and each of these outcomes is reported exactly in its own case; otherwise a correct or wrong guess |
| Answers.AnswerMatchesCharwise | main.py:478 | a guess matches when the message, stripped at main.py:455, and the answer have the same length and agree at every position after lower-casing |
| Answers.OnMessageTouchesOnlyAuthor | main.py:478-524 | only the author's score and streak change, and no score becomes negative |
| Answers.WrongGuessKeepsBook | main.py:510-514 | counts stay at most five, and the penalised users are exactly those at five |
| Answers.OnMessageKeepsSessionValid | main.py:457-524 | any message keeps the guess-book invariant |
| Answers.PenalisedUserIsRefused | main.py:471-476 | a penalised user's further messages change nothing |
| Answers.SolverIsIgnored | main.py:467-469 | after a correct answer the user's further messages are ignored |
| Answers.PenaltyAtMostOncePerRiddle | main.py:511-514 | over any sequence of messages a user is penalised at most once per riddle |
| Answers.SolvedAtMostOncePerRiddle | main.py:467-480 | over any sequence of messages a user's answer is accepted at most once per riddle |
| Answers.ReplayKeepsSessionValid | main.py:471-511 | after any sequence of messages no guess count exceeds five |
| Bot.RiddleBot.constructor | main.py:106-112 | loads queue, scores and streaks; the counter is the largest numeric ID; the session is empty |
| Bot.RiddleBot.NextId | main.py:100-103 | advances the counter by one and returns its decimal text |
| Bot.RiddleBot.PickNextRiddle | main.py:84-91 | returns a queued record with an ID, unused if possible; marks it used, starting the used set over when all were used |
| Bot.RiddleBot.Submit | main.py:206-242 | refuses exactly the duplicates; otherwise queues the cleaned riddle under a fresh ID and applies the daily award |
| Bot.RiddleBot.Enqueue | main.py:217-224 | appends the record under the next ID, which no queued record holds |
| Bot.RiddleBot.AwardSubmission | main.py:235-242 | applies the daily award and saves the table only when awarded |
| Bot.RiddleBot.Remove | main.py:177-185 | no change when no record has the stripped ID; otherwise removes exactly the first match |
| Bot.RiddleBot.RemoveKey | main.py:179-185 | for an ID already stripped: no change when no record has it; otherwise removes exactly the first record with it |
| Bot.RiddleBot.AdjustPoints | main.py:287-324 | as written: the adjustment goes to the score file only |
| Bot.RiddleBot.AdjustPointsInMemory | main.py:287-324 | corrected: the in-memory table is adjusted and saved |
| Bot.RiddleBot.SaveScores | main.py:58-61 | `save_scores`: the in-memory table becomes the given one, the score file receives the same table, and the bot invariant is kept |
| Bot.RiddleBot.HandleMessage | main.py:444-524 | the new session and outcome are those of `Answers.OnMessage`, and the invariant is kept |
| Bot.RiddleBot.RecordCorrectAnswer | main.py:478-501 | the state after a correct answer is that of `Answers.Solve` |
| Bot.RiddleBot.RecordWrongGuess | main.py:510-524 | the state after a wrong guess is that of `Answers.Miss` |
| Bot.RiddleBot.Penalise | main.py:513-524 | the user is marked as penalised, loses a point as `Ledger.Deduct` says, and the scores are saved |
| Bot.FileAdjustmentLostOnNextSave | main.py:305-324 | as written, an adjustment for a user missing from memory is absent from the table saved when another user earns the daily submission point (main.py:238-240), and from the one saved after another user's correct answer |
| Bot.MemoryAdjustmentSurvivesNextSave | main.py:305-324 | with the correction, the save after another user's daily submission point, correct answer or penalty keeps the adjustment unchanged |

## Left out

- Discord itself is not modelled: the client, slash commands, modals, embeds, DMs, message deletion, channel checks, the bot-author check, permissions and view timeouts. A handler's inputs appear as parameters.
- The daily post and the 23:00 answer reveal are not modelled. `main.py` sets `current_riddle = None` and `current_answer_revealed = False` at main.py:26-27 and never assigns them again. As written, every message therefore returns at main.py:457, and `pick_next_riddle` is never called. `RiddleBot` keeps both as fields that its constructor sets to `None` and `false` and that no method changes. `Answers.OnMessage` and `Bot.RiddleBot.PickNextRiddle` model what the code would do with an open riddle. `format_question_text` is represented only by `Riddles.LowOnRiddles`.
- `random.choice` is an arbitrary choice, `date.today()` is a `Day` parameter, and the clock is a second-of-day parameter.
- Answers.RevealCountdown: counts whole seconds; sub-second parts of the time are not modelled.
- JSON files are modelled only for `scores.json`, as the field `scoresFile`. The other saves and loads are state copies. `streaks.json` is saved together with the scores.
- Text handling covers ASCII only. Unicode white space, case mapping and digits are not modelled, and neither are the underscores and non-ASCII digits Python's `int` accepts.
- Records in the score table always carry all three fields. A missing key reads as 0 or `[]`, which is what `main.py` uses as the default everywhere.
- Dict insertion order: the leaderboard takes the table's items as a sequence in insertion order.
- Bot.RiddleBot.Submit: requires that the submitter's entry is missing or legacy whenever a point would be awarded. `scores.get(uid, 0) + 1` raises `TypeError` on a record, and that crash is not modelled.
- Bot.RiddleBot.PickNextRiddle: requires a record with an ID. `random.choice` on an empty list raises, and that is not modelled.
- Ledger.RankOf: requires `Ledger.RankDefined`. `max` over a table mixing records with other entries raises `TypeError`, and that is not modelled.
- Riddles.FindDuplicate: assumes every record has a question. A record without one makes `existing["question"]` raise.
- Leaderboard.QuestionListView: holds a copy of the queue. In `main.py` it shares the global list, so a later removal would show in an open view.
- Text.Strip: its own contract says only that the result is trimmed and no longer than the input. That it is exactly the input with its edge white space removed is proved beside it, in `Text.StripIsSlice` and `Text.StripUnique`, so that every caller of `Strip` does not carry the slice facts.
- Text.ParseInt: its own contract says when parsing succeeds. The value it returns is stated in `Text.ParseIntValue`, for the same reason.
- Concurrency between handlers is not modelled: each handler runs to completion as one step.
- Answers.OnMessage: requires that the open riddle has an ID, as posted riddles do. For a riddle without one, `main.py` still credits a legacy user; for a record user it raises `KeyError` at main.py:485, after adding the user to `correct_users` at main.py:480. That path is not modelled.

## Findings

| source | as written | input that shows it | evidently intended | confidence | as-written member | corrected member |
|---|---|---|---|---|---|---|
| main.py:305-324 | the points form loads `scores.json`, adjusts it and writes it back, but leaves the in-memory `scores` as they were; the next save of the in-memory table writes it over the file; the one reachable as written is `save_json(SCORES_FILE, scores)` at main.py:238-240, after another user's first submission of the day | add 3 insight points for a user with no entry, then another user submits their first riddle of the day: the saved table has no entry for the first user | the adjustment applied to the in-memory table and saved, so that `/score`, the leaderboard and later saves see it | high (not executed) | Bot.RiddleBot.AdjustPoints, Bot.FileAdjustmentLostOnNextSave | Bot.RiddleBot.AdjustPointsInMemory, Bot.MemoryAdjustmentSurvivesNextSave |
