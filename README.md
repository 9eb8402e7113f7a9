# KU Polls: poll eligibility, listing and the one-vote-per-user ledger

This project models the core of KU Polls, a Django voting application, in Dafny.
Users see published poll questions, cast one vote per question, change that vote, and view tallied results.
Three parts are modelled:

- **Poll entities and their predicates** (`models.dfy`, module `PollModels`).
  A `Question` has a publication instant and an optional end instant.
  A `Choice` belongs to one question. A `Vote` is one user's record that references one choice.
  The predicates are `WasPublishedRecently`, `IsPublished` and `CanVote`.
  A choice's vote count is derived: it is the number of `Vote` records that reference the choice.
- **Visibility and listing rules** (`listing.dfy`, module `Listing`).
  A question is *visible* when it is published and has at least one choice.
  The index shows the five newest visible questions.
  The detail page runs a decision chain: a missing question redirects to the index; a question that cannot be voted on redirects to the index; otherwise the question is looked up among the visible ones, and a failed lookup is "not found".
  The results page looks the question up among the visible ones only.
- **The vote ledger and the page contexts** (`ledger.dfy`, module `Ledger`; `results.dfy`, module `Results`).
  Casting a vote either reassigns the user's existing record on the question or appends one new record.
  `PollStore` is the store class. Its `Submit` method changes the vote table in place and is proved equal to the pure `CastVote`.
  `ResultsContext` builds the results table, one row per choice with a zero-total guard.
  `DetailContext` builds the detail page's choice list and marks the user's current choice.
- **Client address** (`client_ip.dfy`, module `ClientIp`): the first comma-separated field of `X-Forwarded-For`, else `REMOTE_ADDR`.

Time is an integer count of seconds, and a day is 86400.
The current instant is a parameter wherever the source calls `timezone.now()`.
The Django ORM queries become sequence functions: filters, an insertion sort by publication date, and a first-match lookup.
The catalog of questions and choices is a value, because voting never changes it.
The vote table is a field of `PollStore`, because voting updates it in place.

Where the tests and the code disagree, the model follows `polls/views.py`:

- A future question's detail page redirects to the index, as `polls/tests/test_detail.py` expects. The older `polls/tests.py` expects a 404 there.
- `is_published`, `can_vote` and `end_date` are not defined in `polls/models.py`, which is an older revision. They are built from `polls/tests/test_models.py`: published means `pub_date <= now`; `can_vote` means published and (no end date, or `now <= end_date`). Whether `now == end_date` is still open is not fixed by any test; the model counts it as open.
- `vote` looks the question up with `get_object_or_404` over all questions and never calls `can_vote`. A direct submission therefore records a vote on a closed or unpublished question (`Ledger.CastVoteIgnoresVotingWindow`).
- The detail list marks a row as the user's choice by comparing choice *texts*, not ids. If two choices of a question had the same text, both rows would be marked. The model keeps this (`Results.DetailContext`).
- `polls/models.py` defines `was_published_recently` twice with the same body (lines 22-25 and 32-35). Python keeps the second definition. The model defines the predicate once.
- `polls/models.py:44` declares a stored `Choice.votes` counter, and `vote` never updates it. As the tests expect, the model derives a choice's votes from the `Vote` records (`PollModels.VoteCount`). A shown share `Share(v, t)` stands for `round(v / t * 100, 2)`.

## Model

| member | source | states |
|---|---|---|
| `PollModels.NewQuestion` | polls/tests/test_models.py:64-69 | a question created without an end date has `endDate == None` and keeps the given id, text and publication date |
| `PollModels.WasPublishedRecently` | polls/models.py:22-35 | true exactly when the question's age `now - pub_date` lies in `[0, Day]`, inclusive at both ends; false for every future publication date |
| `PollModels.WasPublishedRecentlyBoundaries` | polls/tests/test_models.py:17-43 | false at one day plus one second old and 30 days in the future; true at 23:59:59 old, exactly one day old and at `now` |
| `PollModels.IsPublished` | polls/tests/test_models.py:71-87 | true for a publication date in the past or at `now`; false for one in the future |
| `PollModels.CanVote` | polls/views.py:92 | votable implies published; a passed end date makes it false; with no end date it coincides with being published |
| `PollModels.CanVoteWindow` | polls/tests/test_models.py:89-130 | open-ended and published is votable; published with a future end is votable; a past end date is not; an unpublished question is neither published nor votable, whatever its end date |
| `PollModels.ReversedWindowNeverVotable` | polls/tests/test_models.py:120-130 | an end date before the publication date makes the question unvotable at every instant |
| `PollModels.NewQuestionVotableOncePublished` | polls/tests/test_models.py:64-78 | a question created with the default end date is votable exactly from its publication instant on |
| `PollModels.FindQuestion` | polls/views.py:76 | the lookup by primary key returns a question of the table with that id, and finds nothing only when no question has the id |
| `PollModels.FindChoice` | polls/views.py:248-249 | the lookup by primary key returns a choice with that id, and finds nothing only when no choice has the id |
| `PollModels.ChoicesOf` | polls/models.py:42 | a question's choice set holds exactly the choices whose foreign key is that question |
| `PollModels.QuestionOf` | polls/views.py:265 | following a choice id to its question yields the question of a choice with that id; it yields nothing only for an unknown choice id |
| `PollModels.VotesIn` | polls/views.py:265 | the count of records on a set of choice ids is at most the number of records, and is positive exactly when some record references one of the ids |
| `PollModels.VoteCount` | polls/models.py:44 | a choice's derived vote count is at most the number of records, and is positive exactly when some record references the choice |
| `PollModels.QuestionVotes` | polls/views.py:215-216 | a question's vote total is positive exactly when some record references one of the question's choices |
| `PollModels.QuestionsOccurOnce` | polls/models.py:11-16 | with unique primary keys, no question occurs twice in the question table |
| `PollModels.NewChoiceHasNoVotes` | polls/models.py:44 | when every vote record references a known choice, a choice id not yet in the catalog has zero votes |
| `PollModels.FindQuestionUnique` | polls/views.py:76 | with unique question ids, looking up a question's own id returns that question |
| `PollModels.FindChoiceUnique` | polls/views.py:248-249 | with unique choice ids, looking up a choice's own id returns that choice |
| `PollModels.ChoicesOfDistinct` | polls/views.py:152 | a question's choice set inherits unique ids from the choice table |
| `PollModels.QuestionOfChoicesOf` | polls/views.py:265 | with unique choice ids, a choice's foreign key is question q exactly when the choice is in q's choice set, so `choice__question=q` filters to q's choices |
| `Listing.Visible` | polls/views.py:44-55 | a question is visible exactly when `pub_date <= now` and at least one choice has it as its foreign key (`have_choice > 0`) |
| `Listing.FilterVisible` | polls/views.py:43-55 | keeps exactly the questions that are published and have at least one choice; each visible question occurs as often as in the input, every other question not at all |
| `Listing.SortByPubDateDesc` | polls/views.py:56 | the result is newest first and is a rearrangement (same multiset) of its input |
| `Listing.VisibleQuestions` | polls/views.py:113-124 | the detail and results queryset holds exactly the visible questions of the table, each as often as in the table, newest first |
| `Listing.VisibleQuestionsOnce` | polls/views.py:113-124 | with unique primary keys, the queryset lists each visible question once, so its length is the number of visible questions in the table |
| `Listing.IndexQuestions` | polls/views.py:33-57 | the index holds at most five questions and is a prefix of the newest-first visible queryset |
| `Listing.IndexOnlyVisible` | polls/views.py:43-56 | every question on the index is in the table, has `pub_date <= now` and has at least one choice |
| `Listing.IndexOrderAndSize` | polls/views.py:56 | the index is newest first and holds `min(5, length of the queryset)` questions; with unique primary keys that is `min(5, number of visible questions in the table)`, and no question is listed twice |
| `Listing.IndexIsNewest` | polls/views.py:56 | a visible question that the index leaves out means the index is full, and that question is no newer than any question shown |
| `Listing.IndexComplete` | polls/tests/test_index.py:34-120 | with unique primary keys and at most five visible questions in the table, the index is the whole visible queryset: every visible question, each once, newest first |
| `Listing.IndexOfTwoVisible` | polls/tests/test_index.py:90-120 | when the first two questions of the table are visible, the second newer, and the rest unpublished, the index is exactly `[second, first]` |
| `Listing.IndexTwoPastQuestions` | polls/tests/test_index.py:90-102 | questions 30 and 5 days old give the index `[question2, question1]` |
| `Listing.IndexTwoPastOneFuture` | polls/tests/test_index.py:104-120 | adding a question 10 days in the future still gives the index `[question2, question1]` |
| `Listing.DetailGet` | polls/views.py:71-102 | the detail page redirects for "no such question" exactly when no question has the id; a "voting closed" redirect carries the question with that id that cannot be voted on; a shown question is a visible question with that id; "not found" means no question with that id is visible |
| `Listing.DetailMissingRedirects` | polls/views.py:76-85 | an id that no question has redirects to the index |
| `Listing.DetailClosedRedirects` | polls/views.py:92-99 | an existing question that cannot be voted on redirects to the index, whatever its choices |
| `Listing.DetailVotableShownIffChoices` | polls/views.py:102-124 | a votable question is shown if it has a choice and is "not found" if it has none |
| `Listing.DetailShownIsVotable` | polls/views.py:71-124 | a shown question has the requested id, is in the table, is votable and has a choice |
| `Listing.ResultsGet` | polls/views.py:181-201 | the results page finds only a visible question with the requested id, and is "not found" only when no question with that id is visible |
| `Listing.ResultsIgnoreVotingWindow` | polls/views.py:176-201 | the results page shows every visible question, including one whose voting is closed |
| `Ledger.FindVote` | polls/views.py:265 | the lookup of the user's record on a question returns the first such record, and nothing only when the user has none |
| `Ledger.SelectChoice` | polls/views.py:247-250 | the selected choice is the submitted id and belongs to the question; nothing is selected only when no id was submitted or the id is not one of the question's choices |
| `Ledger.SelectedChoiceOnQuestion` | polls/views.py:247-250 | a choice selected through the question's choice set has that question as its foreign key |
| `Ledger.CastVote` | polls/views.py:241-290 | "question not found" exactly when no question has the id; "no choice selected" only when no id was submitted or the id is none of the question's choices; a success carries the submitted choice, which belongs to the question; a failure leaves the table and the next id alone; "created" adds one record, "changed" keeps the length |
| `Ledger.PollStore.Submit` | polls/views.py:241-290 | the new vote table and outcome equal `CastVote` of the old table, and the ledger invariant is kept |
| `Ledger.CastVoteErrors` | polls/views.py:245-258 | an unknown question, a missing choice, or a choice of another question each give their error and leave the vote table unchanged |
| `Ledger.CastVoteIgnoresVotingWindow` | polls/views.py:241-290 | a valid choice of an existing question is recorded even when the question cannot be voted on |
| `Ledger.CastVoteChanges` | polls/views.py:264-275 | if the user already has a record on the question, its choice is reassigned, the outcome is "changed", no record is added and every other record is untouched |
| `Ledger.CastVoteCreates` | polls/views.py:276-285 | if the user has no record on the question, exactly one record `(fresh id, user, choice)` is appended and the outcome is "created" |
| `Ledger.OneRecordPerUserQuestion` | polls/views.py:265 | under the ledger invariant, two records of one user on one question are the same record |
| `Ledger.ReassignPreservesValid` | polls/views.py:267-268 | moving a record to another choice of its question keeps the invariant |
| `Ledger.AppendPreservesValid` | polls/views.py:278 | appending a fresh record for a user without a record on that question keeps the invariant |
| `Ledger.CastVotePreservesValid` | polls/views.py:264-285 | every submission keeps the invariant: known choices, unique record ids, at most one record per user and question |
| `Ledger.CastVoteLeavesOneVote` | polls/views.py:264-285 | after a successful vote the user has exactly one record on the question, and it references the selected choice |
| `Ledger.CastVoteTallies` | polls/views.py:264-285 | for any set of choices, a created record adds the selected choice's vote; a changed record moves one vote from the previous choice to the selected one; a failure changes nothing |
| `Ledger.ChangedVoteMovesOneVote` | polls/views.py:264-275 | changing from choice a to choice b takes one vote from a and gives one to b, leaves every other choice's count alone, and re-voting the same choice leaves the table unchanged |
| `Ledger.CastVoteQuestionTotal` | polls/tests/test_auth.py:101-137 | a first vote raises the question's total by one; a changed vote keeps the total |
| `Ledger.RevoteScenario` | polls/tests/test_auth.py:101-181 | voting for choice 1 and then choice 3 gives "created" and then "changed"; the total is 1 after each vote, choice 1 ends at 0 and choice 3 at 1 |
| `Results.PercentageOf` | polls/views.py:220-231 | the share is zero when the total is zero and is `votes / total` otherwise |
| `Results.ResultsContext` | polls/views.py:203-238 | the total is the sum of the choice counts and of the row counts; there is one row per choice in order, with its text, its record count and its share; with a zero total every count and share is zero |
| `Results.TotalVotes` | polls/views.py:215-216 | a zero sum of the choice counts means that every choice has zero votes |
| `Results.ZeroTotalHasNoVotes` | polls/views.py:215-231 | the total is zero exactly when no choice of the question has a vote |
| `Results.TotalVotesCountsRecords` | polls/views.py:215-216 | with unique choice ids, the sum of per-choice counts equals the number of records that reference any of the choices |
| `Results.ResultsTotalIsQuestionVotes` | polls/views.py:215-216 | the results total is the number of vote records on the question |
| `Results.SingleVoterTotal` | polls/tests/test_auth.py:101-137 | when one user cast every vote, a question's total is at most 1, and it is 1 exactly when that user has a record on the question |
| `Results.CurrentVote` | polls/views.py:142-149 | the user's current vote is a record of that user on the question; an anonymous visitor, or a user without a record, has none |
| `Results.DetailContext` | polls/views.py:126-173 | one row per choice in order, with its text and id; with no vote, no row is marked; a marked row carries the voted choice, whose text equals the row's; every other row carries the vote record; with unique ids, the voted choice's own row is marked |
| `ClientIp.FirstField` | polls/views.py:309 | `split(',')[0]`: a prefix of the header that contains no comma and that stops at a comma or at the end |
| `ClientIp.FirstFieldUnique` | polls/views.py:309 | those three properties determine the first field uniquely |
| `ClientIp.FirstFieldOfJoin` | polls/views.py:309 | the first field of `a,b` is `a` when `a` contains no comma |
| `ClientIp.GetClientIp` | polls/views.py:305-312 | a non-empty forwarded header yields its first field; an absent or empty header yields `REMOTE_ADDR`, which may itself be absent |
| `ClientIp.ClientIpExamples` | polls/views.py:305-312 | a proxy chain yields its first hop; an empty header falls back to the remote address; with neither header the result is absent |

## Left out

- The Django ORM's `annotate`/`Case`/`Count` query machinery (polls/views.py:44-56): it is modelled as a sequence filter, a sort and a slice. Questions with equal publication dates are ordered by the model's sort, while the database leaves their order unspecified; no lemma depends on that order.
- HTTP responses, `redirect`, `render`, `messages` and `logger` calls: the outcomes are datatypes (`DetailOutcome`, `VoteOutcome`, `Option` for "not found").
- Authentication (`login_required`, `signup`, `logout_view`, the login signal callbacks): the voter arrives as a user id. The anonymous visitor appears only in `CurrentVote`, where the source catches the `TypeError`. `get_client_ip` is modelled; the log lines that use it are not.
- `reset_vote`: it is routed in polls/urls.py:14, but its code is not part of this model.
- Results.PercentageOf: the float `round(votes / total * 100, 2)` is kept abstract as `Share(votes, total)`, because floating-point rounding is not modelled.
- A non-numeric choice id in the form (a `ValueError` in the source, not caught) is not modelled: the form's choice field is `Option<ChoiceId>`.
- `Vote.objects.get` raises `MultipleObjectsReturned` when a user has two records on one question. The ledger invariant (`ValidLedger`, kept by every vote) rules this out, so the model does not represent that error.
- The unreachable `isinstance(question, HttpResponseRedirect)` test at polls/views.py:89-90 is omitted.
- Concurrent double submissions: the source has no locking, and the model is sequential.
- The stored `Choice.votes` field (polls/models.py:44): votes are derived from the records instead, as the tests expect.
- polls/admin.py, polls/urls.py and polls/apps.py are configuration and are not modelled.
