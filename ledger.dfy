/**
 * The vote ledger: casting a vote creates the user's vote record for a question
 * or reassigns the choice of the record the user already has, so that every
 * user holds at most one vote per question.
 */
module Ledger {
  import opened Wrappers
  import opened PollModels

  /** What a vote submission leads to. `QuestionNotFound` is the 404 of the
      question lookup; `NoChoiceSelected` sends the user back to the detail page
      (no choice in the form, or a choice that is not one of the question's). */
  datatype VoteOutcome =
    | QuestionNotFound
    | NoChoiceSelected(question: QuestionId)
    | Created(choice: Choice)
    | Changed(choice: Choice)
  {
    predicate Succeeded() { Created? || Changed? }
  }

  /** The outcome of a submission together with the new contents of the vote table. */
  datatype LedgerStep = LedgerStep(outcome: VoteOutcome, votes: seq<Vote>, nextId: nat)

  /** The record belongs to `user` and references a choice of question `q`. */
  predicate OnQuestion(cat: Catalog, v: Vote, user: UserId, q: QuestionId)
  {
    v.user == user && QuestionOf(cat, v.choice) == Some(q)
  }

  /** The ledger's invariant: every record references an existing choice, record
      ids are unique and below `nextId`, and no user has two records on one question. */
  predicate ValidLedger(cat: Catalog, votes: seq<Vote>, nextId: nat)
  {
    && (forall i :: 0 <= i < |votes| ==> votes[i].choice in ChoiceIds(cat.choices))
    && (forall i :: 0 <= i < |votes| ==> votes[i].id < nextId)
    && (forall i, j :: 0 <= i < j < |votes| ==> votes[i].id != votes[j].id)
    && (forall i, j :: 0 <= i < j < |votes| && votes[i].user == votes[j].user
          ==> QuestionOf(cat, votes[i].choice) != QuestionOf(cat, votes[j].choice))
  }

  /** The record of `user` on question `q`, as the index of the first such record. */
  function FindVote(cat: Catalog, votes: seq<Vote>, user: UserId, q: QuestionId): (r: Option<nat>)
    ensures r.Some? ==> r.value < |votes| && OnQuestion(cat, votes[r.value], user, q)
    ensures r.Some? ==> forall j :: 0 <= j < r.value ==> !OnQuestion(cat, votes[j], user, q)
    ensures r.None? ==> forall j :: 0 <= j < |votes| ==> !OnQuestion(cat, votes[j], user, q)
  {
    if votes == [] then None
    else if OnQuestion(cat, votes[0], user, q) then Some(0)
    else
      match FindVote(cat, votes[1..], user, q)
      case None => None
      case Some(k) => Some(k + 1)
  }

  /** The choice a submission selects: the submitted id when it is one of the question's choices. */
  function SelectChoice(cat: Catalog, q: QuestionId, submitted: Option<ChoiceId>): (r: Option<Choice>)
    ensures r.Some? ==> submitted == Some(r.value.id) && r.value in cat.choices && r.value.question == q
    ensures r.None? ==> submitted.None? || forall c :: c in cat.choices && c.question == q ==> c.id != submitted.value
  {
    match submitted
    case None => None
    case Some(id) =>
      var r := FindChoice(ChoicesOf(cat.choices, q), id);
      assert r.None? ==> forall c :: c in ChoicesOf(cat.choices, q) ==> c.id != id;
      r
  }

  /** A vote submission by `user` on question `pk` with the form's choice id, if any. */
  function CastVote(cat: Catalog, votes: seq<Vote>, nextId: nat, user: UserId, pk: QuestionId,
                    submitted: Option<ChoiceId>): (r: LedgerStep)
    ensures r.outcome.QuestionNotFound? <==> forall q :: q in cat.questions ==> q.id != pk
    ensures r.outcome.NoChoiceSelected? ==>
      && r.outcome.question == pk
      && (submitted.None? || forall c :: c in cat.choices && c.question == pk ==> c.id != submitted.value)
    ensures r.outcome.Succeeded() ==>
      && submitted == Some(r.outcome.choice.id)
      && r.outcome.choice in cat.choices && r.outcome.choice.question == pk
    ensures !r.outcome.Succeeded() ==> r.votes == votes && r.nextId == nextId
    ensures r.outcome.Created? ==> |r.votes| == |votes| + 1 && r.nextId == nextId + 1
    ensures r.outcome.Changed? ==> |r.votes| == |votes| && r.nextId == nextId
  {
    match FindQuestion(cat.questions, pk)
    case None => LedgerStep(QuestionNotFound, votes, nextId)
    case Some(q) =>
      match SelectChoice(cat, q.id, submitted)
      case None => LedgerStep(NoChoiceSelected(q.id), votes, nextId)
      case Some(c) =>
        match FindVote(cat, votes, user, q.id)
        case Some(i) => LedgerStep(Changed(c), votes[i := votes[i].(choice := c.id)], nextId)
        case None => LedgerStep(Created(c), votes + [Vote(nextId, user, c.id)], nextId + 1)
  }

  /** The persistent store: the catalog that voting never changes, and the vote table. */
  class PollStore {
    const catalog: Catalog
    var votes: seq<Vote>
    var nextId: nat

    ghost predicate Valid()
      reads this
    {
      ValidCatalog(catalog) && ValidLedger(catalog, votes, nextId)
    }

    constructor (catalog: Catalog)
      requires ValidCatalog(catalog)
      ensures Valid()
      ensures this.catalog == catalog && votes == [] && nextId == 0
    {
      this.catalog := catalog;
      votes := [];
      nextId := 0;
    }

    /** Casts `user`'s vote on question `pk` for the submitted choice. */
    method Submit(user: UserId, pk: QuestionId, submitted: Option<ChoiceId>) returns (outcome: VoteOutcome)
      requires Valid()
      modifies this
      ensures Valid()
      ensures LedgerStep(outcome, votes, nextId) == CastVote(catalog, old(votes), old(nextId), user, pk, submitted)
    {
      var question := FindQuestion(catalog.questions, pk);
      if question.None? {
        return QuestionNotFound;
      }
      var q := question.value;
      var selected := SelectChoice(catalog, q.id, submitted);
      if selected.None? {
        return NoChoiceSelected(q.id);
      }
      var c := selected.value;
      var existing := FindVote(catalog, votes, user, q.id);
      if existing.Some? {
        var i := existing.value;
        votes := votes[i := votes[i].(choice := c.id)];
        outcome := Changed(c);
      } else {
        votes := votes + [Vote(nextId, user, c.id)];
        nextId := nextId + 1;
        outcome := Created(c);
      }
      CastVotePreservesValid(catalog, old(votes), old(nextId), user, pk, submitted);
    }
  }

  // ---------------------------------------------------------------------------
  // Lemmas

  /** The selected choice belongs to the question as far as the vote table can tell. */
  lemma SelectedChoiceOnQuestion(cat: Catalog, q: QuestionId, submitted: Option<ChoiceId>)
    requires DistinctChoiceIds(cat.choices)
    requires SelectChoice(cat, q, submitted).Some?
    ensures QuestionOf(cat, SelectChoice(cat, q, submitted).value.id) == Some(q)
  {
    FindChoiceUnique(cat.choices, SelectChoice(cat, q, submitted).value);
  }

  /** A submission that names no question, no choice, or a choice of another
      question leaves the vote table as it was. */
  lemma CastVoteErrors(cat: Catalog, votes: seq<Vote>, nextId: nat, user: UserId, pk: QuestionId,
                       submitted: Option<ChoiceId>)
    ensures (forall q :: q in cat.questions ==> q.id != pk)
      ==> CastVote(cat, votes, nextId, user, pk, submitted) == LedgerStep(QuestionNotFound, votes, nextId)
    ensures (exists q :: q in cat.questions && q.id == pk) && submitted.None?
      ==> CastVote(cat, votes, nextId, user, pk, submitted) == LedgerStep(NoChoiceSelected(pk), votes, nextId)
    ensures (exists q :: q in cat.questions && q.id == pk) && submitted.Some?
            && (forall c :: c in cat.choices && c.id == submitted.value ==> c.question != pk)
      ==> CastVote(cat, votes, nextId, user, pk, submitted) == LedgerStep(NoChoiceSelected(pk), votes, nextId)
  {
  }

  /** Voting itself consults neither the publication date nor the end date: a
      valid choice of an existing question is recorded even when the question
      cannot be voted on. */
  lemma CastVoteIgnoresVotingWindow(cat: Catalog, votes: seq<Vote>, nextId: nat, user: UserId, q: Question,
                                    submitted: Option<ChoiceId>, now: Instant)
    requires DistinctQuestionIds(cat.questions) && q in cat.questions && !CanVote(q, now)
    requires submitted.Some? && exists c :: c in cat.choices && c.question == q.id && c.id == submitted.value
    ensures CastVote(cat, votes, nextId, user, q.id, submitted).outcome.Succeeded()
  {
    FindQuestionUnique(cat.questions, q);
  }

  /** A user who already voted on the question has that record's choice
      reassigned; no record is added and every other record is untouched. */
  lemma CastVoteChanges(cat: Catalog, votes: seq<Vote>, nextId: nat, user: UserId, pk: QuestionId,
                        submitted: Option<ChoiceId>, i: nat)
    requires FindQuestion(cat.questions, pk).Some? && SelectChoice(cat, pk, submitted).Some?
    requires i < |votes| && OnQuestion(cat, votes[i], user, pk)
    requires ValidLedger(cat, votes, nextId)
    ensures var step := CastVote(cat, votes, nextId, user, pk, submitted);
      && step.outcome == Changed(SelectChoice(cat, pk, submitted).value)
      && |step.votes| == |votes| && step.nextId == nextId
      && step.votes[i] == votes[i].(choice := submitted.value)
      && forall j :: 0 <= j < |votes| && j != i ==> step.votes[j] == votes[j]
  {
    var k := FindVote(cat, votes, user, pk).value;
    OneRecordPerUserQuestion(cat, votes, nextId, user, pk, i, k);
  }

  /** A user without a vote on the question gets exactly one new record, with a
      fresh id, after all the others. */
  lemma CastVoteCreates(cat: Catalog, votes: seq<Vote>, nextId: nat, user: UserId, pk: QuestionId,
                        submitted: Option<ChoiceId>)
    requires FindQuestion(cat.questions, pk).Some? && SelectChoice(cat, pk, submitted).Some?
    requires forall j :: 0 <= j < |votes| ==> !OnQuestion(cat, votes[j], user, pk)
    ensures var step := CastVote(cat, votes, nextId, user, pk, submitted);
      && step.outcome == Created(SelectChoice(cat, pk, submitted).value)
      && step.votes == votes + [Vote(nextId, user, submitted.value)]
      && step.nextId == nextId + 1
  {
  }

  /** The invariant allows one record per user and question: two records of
      the same user on the same question are the same record. */
  lemma OneRecordPerUserQuestion(cat: Catalog, votes: seq<Vote>, nextId: nat, user: UserId, q: QuestionId,
                                 i: nat, j: nat)
    requires ValidLedger(cat, votes, nextId)
    requires i < |votes| && j < |votes|
    requires OnQuestion(cat, votes[i], user, q) && OnQuestion(cat, votes[j], user, q)
    ensures i == j
  {
  }

  /** Once a user has a record on a question, no other record is theirs on it. */
  lemma OnlyRecordOnQuestion(cat: Catalog, votes: seq<Vote>, nextId: nat, user: UserId, q: QuestionId, k: nat)
    requires ValidLedger(cat, votes, nextId)
    requires k < |votes| && OnQuestion(cat, votes[k], user, q)
    ensures forall j :: 0 <= j < |votes| && j != k ==> !OnQuestion(cat, votes[j], user, q)
  {
    forall j | 0 <= j < |votes| && OnQuestion(cat, votes[j], user, q) ensures j == k {
      OneRecordPerUserQuestion(cat, votes, nextId, user, q, j, k);
    }
  }

  /** Reassigning a record to another choice of the same question keeps the invariant. */
  lemma ReassignPreservesValid(cat: Catalog, votes: seq<Vote>, nextId: nat, i: nat, choice: ChoiceId)
    requires ValidLedger(cat, votes, nextId)
    requires i < |votes| && choice in ChoiceIds(cat.choices)
    requires QuestionOf(cat, choice) == QuestionOf(cat, votes[i].choice)
    ensures ValidLedger(cat, votes[i := votes[i].(choice := choice)], nextId)
  {
    var nv := votes[i := votes[i].(choice := choice)];
    assert forall j :: 0 <= j < |nv| ==>
      && nv[j].user == votes[j].user
      && nv[j].id == votes[j].id
      && QuestionOf(cat, nv[j].choice) == QuestionOf(cat, votes[j].choice);
  }

  /** Appending a fresh record for a user without a record on its question keeps the invariant. */
  lemma AppendPreservesValid(cat: Catalog, votes: seq<Vote>, nextId: nat, user: UserId, choice: ChoiceId)
    requires ValidLedger(cat, votes, nextId)
    requires choice in ChoiceIds(cat.choices)
    requires forall j :: 0 <= j < |votes| ==> !OnQuestion(cat, votes[j], user, QuestionOf(cat, choice).value)
    ensures ValidLedger(cat, votes + [Vote(nextId, user, choice)], nextId + 1)
  {
    var nv := votes + [Vote(nextId, user, choice)];
    assert forall j :: 0 <= j < |votes| ==> nv[j] == votes[j];
    forall i, j | 0 <= i < j < |nv| && nv[i].user == nv[j].user
      ensures QuestionOf(cat, nv[i].choice) != QuestionOf(cat, nv[j].choice)
    {
      if j == |votes| {
        assert !OnQuestion(cat, votes[i], user, QuestionOf(cat, choice).value);
      }
    }
  }

  /** Casting a vote keeps the ledger's invariant. */
  lemma CastVotePreservesValid(cat: Catalog, votes: seq<Vote>, nextId: nat, user: UserId, pk: QuestionId,
                               submitted: Option<ChoiceId>)
    requires ValidCatalog(cat) && ValidLedger(cat, votes, nextId)
    ensures var step := CastVote(cat, votes, nextId, user, pk, submitted);
      ValidLedger(cat, step.votes, step.nextId)
  {
    var step := CastVote(cat, votes, nextId, user, pk, submitted);
    if step.outcome.Succeeded() {
      var q := FindQuestion(cat.questions, pk).value;
      var c := SelectChoice(cat, q.id, submitted).value;
      SelectedChoiceOnQuestion(cat, q.id, submitted);
      assert c.id in ChoiceIds(cat.choices);
      match FindVote(cat, votes, user, q.id)
      case Some(i) =>
        ReassignPreservesValid(cat, votes, nextId, i, c.id);
      case None =>
        AppendPreservesValid(cat, votes, nextId, user, c.id);
    }
  }

  /** After a successful vote the user has exactly one record on the question,
      and it references the selected choice. */
  lemma CastVoteLeavesOneVote(cat: Catalog, votes: seq<Vote>, nextId: nat, user: UserId, pk: QuestionId,
                              submitted: Option<ChoiceId>)
    requires ValidCatalog(cat) && ValidLedger(cat, votes, nextId)
    requires CastVote(cat, votes, nextId, user, pk, submitted).outcome.Succeeded()
    ensures var step := CastVote(cat, votes, nextId, user, pk, submitted);
      && submitted.Some?
      && FindVote(cat, step.votes, user, pk).Some?
      && step.votes[FindVote(cat, step.votes, user, pk).value].choice == submitted.value
      && forall j :: 0 <= j < |step.votes| && OnQuestion(cat, step.votes[j], user, pk)
           ==> j == FindVote(cat, step.votes, user, pk).value
  {
    var step := CastVote(cat, votes, nextId, user, pk, submitted);
    var q := FindQuestion(cat.questions, pk).value;
    SelectedChoiceOnQuestion(cat, q.id, submitted);
    CastVotePreservesValid(cat, votes, nextId, user, pk, submitted);
    var nv := step.votes;
    var k := FindVote(cat, nv, user, pk);
    match FindVote(cat, votes, user, q.id)
    case Some(i) =>
      assert OnQuestion(cat, nv[i], user, pk);
    case None =>
      assert OnQuestion(cat, nv[|votes|], user, pk);
    assert k.Some?;
    forall j | 0 <= j < |nv| && OnQuestion(cat, nv[j], user, pk) ensures j == k.value {
      OneRecordPerUserQuestion(cat, nv, step.nextId, user, pk, j, k.value);
    }
  }

  /** How a vote moves the tallies of any set of choices: a created record adds
      the selected choice, a changed record removes its previous choice and adds
      the selected one. */
  lemma CastVoteTallies(cat: Catalog, votes: seq<Vote>, nextId: nat, user: UserId, pk: QuestionId,
                        submitted: Option<ChoiceId>, ids: set<ChoiceId>)
    ensures var step := CastVote(cat, votes, nextId, user, pk, submitted);
      && (step.outcome.Created? ==>
            VotesIn(step.votes, ids) == VotesIn(votes, ids) + (if submitted.value in ids then 1 else 0))
      && (step.outcome.Changed? ==>
            var i := FindVote(cat, votes, user, pk).value;
            VotesIn(step.votes, ids)
              == VotesIn(votes, ids) - (if votes[i].choice in ids then 1 else 0)
                 + (if submitted.value in ids then 1 else 0))
      && (!step.outcome.Succeeded() ==> step.votes == votes)
  {
    var step := CastVote(cat, votes, nextId, user, pk, submitted);
    if step.outcome.Created? {
      VotesInAppend(votes, Vote(nextId, user, submitted.value), ids);
    } else if step.outcome.Changed? {
      var i := FindVote(cat, votes, user, pk).value;
      VotesInUpdate(votes, i, votes[i].(choice := submitted.value), ids);
    }
  }

  /** A first vote adds one to the question's total; a changed vote keeps it. */
  lemma CastVoteQuestionTotal(cat: Catalog, votes: seq<Vote>, nextId: nat, user: UserId, pk: QuestionId,
                              submitted: Option<ChoiceId>)
    requires ValidCatalog(cat)
    ensures var step := CastVote(cat, votes, nextId, user, pk, submitted);
      && (step.outcome.Created? ==> QuestionVotes(cat, step.votes, pk) == QuestionVotes(cat, votes, pk) + 1)
      && (step.outcome.Changed? ==> QuestionVotes(cat, step.votes, pk) == QuestionVotes(cat, votes, pk))
  {
    var step := CastVote(cat, votes, nextId, user, pk, submitted);
    var ids := ChoiceIds(ChoicesOf(cat.choices, pk));
    CastVoteTallies(cat, votes, nextId, user, pk, submitted, ids);
    if step.outcome.Succeeded() {
      SelectedChoiceOnQuestion(cat, pk, submitted);
      QuestionOfChoicesOf(cat, pk, submitted.value);
      if step.outcome.Changed? {
        var i := FindVote(cat, votes, user, pk).value;
        QuestionOfChoicesOf(cat, pk, votes[i].choice);
      }
    }
  }

  /** Changing a vote from choice `a` to another choice `b` of the same question
      takes one vote from `a` and gives one to `b`; every other tally stays. */
  lemma ChangedVoteMovesOneVote(cat: Catalog, votes: seq<Vote>, nextId: nat, user: UserId, pk: QuestionId,
                                submitted: Option<ChoiceId>, other: ChoiceId)
    requires CastVote(cat, votes, nextId, user, pk, submitted).outcome.Changed?
    ensures var step := CastVote(cat, votes, nextId, user, pk, submitted);
      var a := votes[FindVote(cat, votes, user, pk).value].choice;
      var b := submitted.value;
      && (a != b ==> VoteCount(step.votes, a) == VoteCount(votes, a) - 1)
      && (a != b ==> VoteCount(step.votes, b) == VoteCount(votes, b) + 1)
      && (other != a && other != b ==> VoteCount(step.votes, other) == VoteCount(votes, other))
      && (a == b ==> step.votes == votes)
  {
    var step := CastVote(cat, votes, nextId, user, pk, submitted);
    var i := FindVote(cat, votes, user, pk).value;
    var a := votes[i].choice;
    var b := submitted.value;
    CastVoteTallies(cat, votes, nextId, user, pk, submitted, {a});
    CastVoteTallies(cat, votes, nextId, user, pk, submitted, {b});
    CastVoteTallies(cat, votes, nextId, user, pk, submitted, {other});
    if a == b {
      assert votes[i].(choice := b) == votes[i];
    }
  }

  /** The scenario of one user on a question with three choices: a first vote for
      the first choice, then a second vote for the last one, leaves one vote in
      all, and it sits with the last choice. */
  lemma RevoteScenario()
    ensures var cat := Catalog([Question(1, "First Poll Question", 0, None)],
                               [Choice(1, 1, "Choice 1"), Choice(2, 1, "Choice 2"), Choice(3, 1, "Choice 3")]);
      var first := CastVote(cat, [], 0, 7, 1, Some(1));
      var second := CastVote(cat, first.votes, first.nextId, 7, 1, Some(3));
      && first.outcome.Created? && QuestionVotes(cat, first.votes, 1) == 1
      && second.outcome.Changed? && QuestionVotes(cat, second.votes, 1) == 1
      && VoteCount(second.votes, 1) == 0 && VoteCount(second.votes, 3) == 1
  {
    var c1, c2, c3 := Choice(1, 1, "Choice 1"), Choice(2, 1, "Choice 2"), Choice(3, 1, "Choice 3");
    var q := Question(1, "First Poll Question", 0, None);
    var cat := Catalog([q], [c1, c2, c3]);
    assert ValidCatalog(cat);
    assert FindQuestion(cat.questions, 1) == Some(q);
    assert ChoicesOf(cat.choices, 1) == [c1, c2, c3] by {
      assert cat.choices[..2] == [c1, c2];
      assert cat.choices[..2][..1] == [c1];
    }
    assert SelectChoice(cat, 1, Some(1)) == Some(c1);
    assert SelectChoice(cat, 1, Some(3)) == Some(c3);
    CastVoteCreates(cat, [], 0, 7, 1, Some(1));
    var first := CastVote(cat, [], 0, 7, 1, Some(1));
    CastVoteQuestionTotal(cat, [], 0, 7, 1, Some(1));
    FindChoiceUnique(cat.choices, c1);
    assert OnQuestion(cat, first.votes[0], 7, 1);
    CastVoteChanges(cat, first.votes, first.nextId, 7, 1, Some(3), 0);
    var second := CastVote(cat, first.votes, first.nextId, 7, 1, Some(3));
    assert second.votes == [Vote(0, 7, 3)];
    assert second.votes[..0] == [];
    CastVoteQuestionTotal(cat, first.votes, first.nextId, 7, 1, Some(3));
  }
}
