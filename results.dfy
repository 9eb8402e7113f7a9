/**
 * The page contexts built from the vote table: the results table of a question
 * (one row per choice with its count and share) and the choice list of the
 * detail page, which marks the choice the current user voted for.
 */
module Results {
  import opened Wrappers
  import opened PollModels
  import opened Ledger

  /** The share shown for a choice. `Share(v, t)` stands for v / t * 100 rounded to
      two decimals; `ZeroPercent` is the integer 0 shown when nobody voted. */
  datatype Percentage = ZeroPercent | Share(votes: nat, total: nat)

  datatype ResultRow = ResultRow(text: string, votes: nat, percentage: Percentage)

  /** The share of `count` in `total`, guarded against a zero total. */
  function PercentageOf(count: nat, total: nat): (p: Percentage)
    ensures total == 0 ==> p == ZeroPercent
    ensures total > 0 ==> p.Share? && p.votes == count && p.total == total
  {
    if total > 0 then Share(count, total) else ZeroPercent
  }

  /** The sum of the vote counts of `cs`. */
  function TotalVotes(votes: seq<Vote>, cs: seq<Choice>): (n: nat)
    ensures n == 0 ==> forall c :: c in cs ==> VoteCount(votes, c.id) == 0
  {
    if cs == [] then 0
    else TotalVotes(votes, cs[..|cs| - 1]) + VoteCount(votes, cs[|cs| - 1].id)
  }

  /** The sum of the vote counts of a results table. */
  function SumRowVotes(rows: seq<ResultRow>): nat
  {
    if rows == [] then 0
    else SumRowVotes(rows[..|rows| - 1]) + rows[|rows| - 1].votes
  }

  /** The results table of question `q`: the total of all its choices' votes and
      one row per choice, in creation order, with the choice's text, its vote
      count and its share of the total; with no votes at all every share is zero
      and nothing is divided. */
  method ResultsContext(cat: Catalog, votes: seq<Vote>, q: Question) returns (total: nat, rows: seq<ResultRow>)
    ensures var cs := ChoicesOf(cat.choices, q.id);
      && total == TotalVotes(votes, cs)
      && total == SumRowVotes(rows)
      && |rows| == |cs|
      && (forall i :: 0 <= i < |rows| ==> rows[i].text == cs[i].text && rows[i].votes == VoteCount(votes, cs[i].id))
      && (forall i :: 0 <= i < |rows| ==> rows[i].percentage == PercentageOf(rows[i].votes, total))
    ensures total == 0 ==> forall i :: 0 <= i < |rows| ==> rows[i].votes == 0 && rows[i].percentage == ZeroPercent
  {
    var cs := ChoicesOf(cat.choices, q.id);
    total := TotalVotes(votes, cs);
    rows := [];
    for i := 0 to |cs|
      invariant |rows| == i
      invariant forall k :: 0 <= k < i ==>
        rows[k] == ResultRow(cs[k].text, VoteCount(votes, cs[k].id), PercentageOf(VoteCount(votes, cs[k].id), total))
      invariant SumRowVotes(rows) == TotalVotes(votes, cs[..i])
    {
      var count := VoteCount(votes, cs[i].id);
      var row := ResultRow(cs[i].text, count, PercentageOf(count, total));
      SumStep(votes, cs, rows, row, i);
      rows := rows + [row];
    }
    assert cs[..|cs|] == cs;
    ZeroTotalHasNoVotes(votes, cs);
  }

  /** The user's current vote on question `q`. An anonymous visitor has none. */
  function CurrentVote(cat: Catalog, votes: seq<Vote>, user: Option<UserId>, q: QuestionId): (r: Option<Vote>)
    ensures r.Some? ==> r.value in votes && user.Some? && OnQuestion(cat, r.value, user.value, q)
    ensures r.None? ==> user.None? || forall v :: v in votes ==> !OnQuestion(cat, v, user.value, q)
  {
    match user
    case None => None
    case Some(u) =>
      match FindVote(cat, votes, u, q)
      case None => None
      case Some(i) => Some(votes[i])
  }

  /** What a row of the detail page carries as the selected choice: nothing when
      the user has no vote, the user's voted choice on the row whose text matches
      it, and the user's vote record on every other row. */
  datatype Selection = NotVoted | VoteRecord(vote: Vote) | SelectedChoice(choice: Choice)

  datatype DetailRow = DetailRow(text: string, id: ChoiceId, selected: Selection)

  /** The choice list of the detail page for `user` on question `q`, one row per
      choice in creation order. A row is marked with the voted choice when its
      text equals the voted choice's text. */
  method DetailContext(cat: Catalog, votes: seq<Vote>, user: Option<UserId>, q: Question) returns (rows: seq<DetailRow>)
    ensures var cs := ChoicesOf(cat.choices, q.id);
      && |rows| == |cs|
      && forall i :: 0 <= i < |rows| ==> rows[i].text == cs[i].text && rows[i].id == cs[i].id
    ensures var current := CurrentVote(cat, votes, user, q.id);
      && (current.None? ==> forall i :: 0 <= i < |rows| ==> rows[i].selected == NotVoted)
      && (forall i :: 0 <= i < |rows| && rows[i].selected.SelectedChoice? ==>
            && current.Some?
            && rows[i].selected.choice.id == current.value.choice
            && rows[i].selected.choice.text == rows[i].text)
      && (forall i :: 0 <= i < |rows| && current.Some? && !rows[i].selected.SelectedChoice? ==>
            && rows[i].selected == VoteRecord(current.value)
            && (forall c :: DistinctChoiceIds(cat.choices) && c in cat.choices && c.id == current.value.choice ==> c.text != rows[i].text))
    ensures DistinctChoiceIds(cat.choices) && CurrentVote(cat, votes, user, q.id).Some? ==>
      exists i :: 0 <= i < |rows| && rows[i].id == CurrentVote(cat, votes, user, q.id).value.choice
        && rows[i].selected.SelectedChoice?
  {
    var cs := ChoicesOf(cat.choices, q.id);
    var current := CurrentVote(cat, votes, user, q.id);
    var voted: Option<Choice> := if current.Some? then FindChoice(cat.choices, current.value.choice) else None;
    rows := [];
    for i := 0 to |cs|
      invariant |rows| == i
      invariant forall k :: 0 <= k < i ==> rows[k].text == cs[k].text && rows[k].id == cs[k].id
      invariant forall k :: 0 <= k < i ==>
        rows[k].selected == if voted.Some? && voted.value.text == cs[k].text then SelectedChoice(voted.value)
                            else if current.Some? then VoteRecord(current.value)
                            else NotVoted
    {
      var selected := if voted.Some? && voted.value.text == cs[i].text then SelectedChoice(voted.value)
                      else if current.Some? then VoteRecord(current.value)
                      else NotVoted;
      rows := rows + [DetailRow(cs[i].text, cs[i].id, selected)];
    }
    if current.Some? {
      forall c | c in cat.choices && c.id == current.value.choice && DistinctChoiceIds(cat.choices)
        ensures voted == Some(c)
      {
        FindChoiceUnique(cat.choices, c);
      }
      if DistinctChoiceIds(cat.choices) {
        var v := current.value;
        QuestionOfChoicesOf(cat, q.id, v.choice);
        var c :| c in cs && c.id == v.choice;
        var j :| 0 <= j < |cs| && cs[j] == c;
        FindChoiceUnique(cat.choices, c);
        assert rows[j].selected.SelectedChoice?;
      }
    }
  }

  // ---------------------------------------------------------------------------
  // Lemmas

  /** A single choice's count never exceeds the total of its question. */
  lemma {:induction false} CountBelowTotal(votes: seq<Vote>, cs: seq<Choice>, i: nat)
    requires i < |cs|
    ensures VoteCount(votes, cs[i].id) <= TotalVotes(votes, cs)
  {
    if i < |cs| - 1 {
      CountBelowTotal(votes, cs[..|cs| - 1], i);
    }
  }

  /** One step of building the results table keeps its running sum equal to the running total. */
  lemma SumStep(votes: seq<Vote>, cs: seq<Choice>, rows: seq<ResultRow>, row: ResultRow, i: nat)
    requires i < |cs| && row.votes == VoteCount(votes, cs[i].id)
    requires SumRowVotes(rows) == TotalVotes(votes, cs[..i])
    ensures SumRowVotes(rows + [row]) == TotalVotes(votes, cs[..i + 1])
  {
    assert (rows + [row])[..|rows|] == rows;
    assert cs[..i + 1][..i] == cs[..i];
  }

  /** The total is zero exactly when no choice has a vote. */
  lemma {:induction false} ZeroTotalHasNoVotes(votes: seq<Vote>, cs: seq<Choice>)
    ensures TotalVotes(votes, cs) == 0 <==> forall i :: 0 <= i < |cs| ==> VoteCount(votes, cs[i].id) == 0
  {
    forall i | 0 <= i < |cs| ensures VoteCount(votes, cs[i].id) <= TotalVotes(votes, cs) {
      CountBelowTotal(votes, cs, i);
    }
    if cs != [] {
      var init := cs[..|cs| - 1];
      ZeroTotalHasNoVotes(votes, init);
      assert forall i :: 0 <= i < |init| ==> init[i] == cs[i];
    }
  }

  /** Under unique choice ids, the total of a sequence of choices counts the
      records that reference any of them. */
  lemma {:induction false} TotalVotesCountsRecords(votes: seq<Vote>, cs: seq<Choice>)
    requires DistinctChoiceIds(cs)
    ensures TotalVotes(votes, cs) == VotesIn(votes, ChoiceIds(cs))
  {
    if cs == [] {
      assert ChoiceIds(cs) == {};
      VotesInNone(votes, {});
    } else {
      var init := cs[..|cs| - 1];
      var last := cs[|cs| - 1];
      LastChoiceIdFresh(cs);
      TotalVotesCountsRecords(votes, init);
      VotesInDisjointUnion(votes, ChoiceIds(init), {last.id});
    }
  }

  /** Under unique ids, the last choice's id is new to the choices before it. */
  lemma LastChoiceIdFresh(cs: seq<Choice>)
    requires cs != [] && DistinctChoiceIds(cs)
    ensures DistinctChoiceIds(cs[..|cs| - 1])
    ensures ChoiceIds(cs) == ChoiceIds(cs[..|cs| - 1]) + {cs[|cs| - 1].id}
    ensures cs[|cs| - 1].id !in ChoiceIds(cs[..|cs| - 1])
  {
    var init := cs[..|cs| - 1];
    var last := cs[|cs| - 1];
    assert cs == init + [last];
    forall c | c in init ensures c.id != last.id {
      var k :| 0 <= k < |init| && init[k] == c;
    }
  }

  /** The total shown on the results page is the number of vote records on the question. */
  lemma ResultsTotalIsQuestionVotes(cat: Catalog, votes: seq<Vote>, q: QuestionId)
    requires DistinctChoiceIds(cat.choices)
    ensures TotalVotes(votes, ChoicesOf(cat.choices, q)) == QuestionVotes(cat, votes, q)
  {
    ChoicesOfDistinct(cat.choices, q);
    TotalVotesCountsRecords(votes, ChoicesOf(cat.choices, q));
  }

  /** Under the ledger's invariant one user contributes at most one vote to a
      question's total, so a question on which only `user` has voted has a total
      of at most one. */
  lemma {:induction false} SingleVoterTotal(cat: Catalog, votes: seq<Vote>, nextId: nat, user: UserId, q: QuestionId)
    requires ValidCatalog(cat) && ValidLedger(cat, votes, nextId)
    requires forall v :: v in votes ==> v.user == user
    ensures QuestionVotes(cat, votes, q) <= 1
    ensures QuestionVotes(cat, votes, q) == 1 <==> FindVote(cat, votes, user, q).Some?
  {
    var ids := ChoiceIds(ChoicesOf(cat.choices, q));
    if votes != [] {
      var init := votes[..|votes| - 1];
      var last := votes[|votes| - 1];
      LedgerPrefixValid(cat, votes, nextId);
      assert forall v :: v in init ==> v in votes;
      SingleVoterTotal(cat, init, nextId, user, q);
      QuestionOfChoicesOf(cat, q, last.choice);
      assert last in votes;
      if last.choice in ids {
        LastRecordOnQuestion(cat, votes, nextId, user, q);
      } else {
        assert !OnQuestion(cat, last, user, q);
        FindVoteOfPrefix(cat, votes, user, q);
      }
    }
  }

  /** Dropping the last record keeps the ledger's invariant. */
  lemma LedgerPrefixValid(cat: Catalog, votes: seq<Vote>, nextId: nat)
    requires votes != [] && ValidLedger(cat, votes, nextId)
    ensures ValidLedger(cat, votes[..|votes| - 1], nextId)
  {
    var init := votes[..|votes| - 1];
    assert forall j :: 0 <= j < |init| ==> init[j] == votes[j];
  }

  /** When the last record is the user's on `q`, no earlier record is, and the
      table is found to hold one. */
  lemma LastRecordOnQuestion(cat: Catalog, votes: seq<Vote>, nextId: nat, user: UserId, q: QuestionId)
    requires votes != [] && ValidLedger(cat, votes, nextId)
    requires OnQuestion(cat, votes[|votes| - 1], user, q)
    ensures FindVote(cat, votes[..|votes| - 1], user, q).None?
    ensures FindVote(cat, votes, user, q).Some?
  {
    var init := votes[..|votes| - 1];
    OnlyRecordOnQuestion(cat, votes, nextId, user, q, |votes| - 1);
    assert forall j :: 0 <= j < |init| ==> init[j] == votes[j];
  }

  /** Searching a table whose last record is not the user's on `q` finds what searching without it finds. */
  lemma FindVoteOfPrefix(cat: Catalog, votes: seq<Vote>, user: UserId, q: QuestionId)
    requires votes != [] && !OnQuestion(cat, votes[|votes| - 1], user, q)
    ensures FindVote(cat, votes, user, q).Some? <==> FindVote(cat, votes[..|votes| - 1], user, q).Some?
  {
    var init := votes[..|votes| - 1];
    assert forall j :: 0 <= j < |init| ==> init[j] == votes[j];
    var r := FindVote(cat, votes, user, q);
    if r.Some? {
      assert r.value < |init|;
    }
  }
}
