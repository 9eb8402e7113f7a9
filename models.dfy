/**
 * The poll data model: questions with a publication window, the choices that
 * belong to them, and the vote records that users cast. Time is an integer
 * instant in seconds; the current instant is always passed in.
 */
module PollModels {
  import opened Wrappers

  type Instant = int
  type QuestionId = int
  type ChoiceId = int
  type UserId = int

  /** One day, in seconds. */
  const Day: int := 86400

  /** A poll question; `endDate` is the optional close of voting. */
  datatype Question = Question(id: QuestionId, text: string, pubDate: Instant, endDate: Option<Instant>)

  /** A selectable option of exactly one question. Its vote count is derived
      from the vote records, see `VoteCount`. */
  datatype Choice = Choice(id: ChoiceId, question: QuestionId, text: string)

  /** One user's current selection: a row that references one choice. */
  datatype Vote = Vote(id: nat, user: UserId, choice: ChoiceId)

  /** The question and choice tables, each in creation order. */
  datatype Catalog = Catalog(questions: seq<Question>, choices: seq<Choice>)

  // ---------------------------------------------------------------------------
  // Question predicates

  /** A question created with only an id, a text and a publication date has no end date. */
  function NewQuestion(id: QuestionId, text: string, pubDate: Instant): (q: Question)
    ensures q.endDate == None
    ensures q.id == id && q.text == text && q.pubDate == pubDate
  {
    Question(id, text, pubDate, None)
  }

  /** Published within the last day: the age of the question lies in [0, Day]. */
  predicate WasPublishedRecently(q: Question, now: Instant)
    ensures WasPublishedRecently(q, now) <==> 0 <= now - q.pubDate <= Day
    ensures q.pubDate > now ==> !WasPublishedRecently(q, now)
  {
    now - Day <= q.pubDate <= now
  }

  /** The question is visible from its publication instant on. */
  predicate IsPublished(q: Question, now: Instant)
    ensures q.pubDate < now ==> IsPublished(q, now)
    ensures q.pubDate == now ==> IsPublished(q, now)
    ensures now < q.pubDate ==> !IsPublished(q, now)
  {
    q.pubDate <= now
  }

  /** Voting is open: published, and the end date, if any, is not yet passed. */
  predicate CanVote(q: Question, now: Instant)
    ensures CanVote(q, now) ==> IsPublished(q, now)
    ensures q.endDate.Some? && q.endDate.value < now ==> !CanVote(q, now)
    ensures q.endDate.None? ==> (CanVote(q, now) <==> IsPublished(q, now))
  {
    IsPublished(q, now) && (q.endDate.None? || now <= q.endDate.value)
  }

  // ---------------------------------------------------------------------------
  // Catalog lookups

  /** The set of ids of a sequence of choices. */
  function ChoiceIds(cs: seq<Choice>): set<ChoiceId>
  {
    set c | c in cs :: c.id
  }

  predicate DistinctChoiceIds(cs: seq<Choice>)
  {
    forall i, j :: 0 <= i < |cs| && 0 <= j < |cs| && cs[i].id == cs[j].id ==> i == j
  }

  predicate DistinctQuestionIds(qs: seq<Question>)
  {
    forall i, j :: 0 <= i < |qs| && 0 <= j < |qs| && qs[i].id == qs[j].id ==> i == j
  }

  /** Primary keys are unique and every choice belongs to an existing question. */
  predicate ValidCatalog(cat: Catalog)
  {
    && DistinctQuestionIds(cat.questions)
    && DistinctChoiceIds(cat.choices)
    && forall c :: c in cat.choices ==> exists q :: q in cat.questions && q.id == c.question
  }

  /** The first question with the given primary key, if there is one. */
  function FindQuestion(qs: seq<Question>, id: QuestionId): (r: Option<Question>)
    ensures r.Some? ==> r.value in qs && r.value.id == id
    ensures r.None? <==> forall q :: q in qs ==> q.id != id
  {
    if qs == [] then None
    else if qs[0].id == id then Some(qs[0])
    else FindQuestion(qs[1..], id)
  }

  /** The first choice with the given primary key, if there is one. */
  function FindChoice(cs: seq<Choice>, id: ChoiceId): (r: Option<Choice>)
    ensures r.Some? ==> r.value in cs && r.value.id == id
    ensures r.None? <==> id !in ChoiceIds(cs)
  {
    if cs == [] then None
    else if cs[0].id == id then Some(cs[0])
    else
      assert ChoiceIds(cs) == {cs[0].id} + ChoiceIds(cs[1..]) by {
        assert cs == [cs[0]] + cs[1..];
      }
      FindChoice(cs[1..], id)
  }

  /** The choices of a question, in creation order. */
  function ChoicesOf(cs: seq<Choice>, q: QuestionId): (r: seq<Choice>)
    ensures forall c :: c in r <==> c in cs && c.question == q
    ensures |r| <= |cs|
  {
    if cs == [] then []
    else
      var rest := ChoicesOf(cs[..|cs| - 1], q);
      var last := cs[|cs| - 1];
      assert cs == cs[..|cs| - 1] + [last];
      if last.question == q then rest + [last] else rest
  }

  /** The question that a choice id belongs to, following the choice's foreign key. */
  function QuestionOf(cat: Catalog, choice: ChoiceId): (r: Option<QuestionId>)
    ensures r.Some? ==> exists c :: c in cat.choices && c.id == choice && c.question == r.value
    ensures r.None? <==> choice !in ChoiceIds(cat.choices)
  {
    match FindChoice(cat.choices, choice)
    case None => None
    case Some(c) => Some(c.question)
  }

  // ---------------------------------------------------------------------------
  // Derived vote counts

  /** The number of vote records whose choice is one of `ids`. */
  function VotesIn(votes: seq<Vote>, ids: set<ChoiceId>): (n: nat)
    ensures n <= |votes|
    ensures n > 0 <==> exists v :: v in votes && v.choice in ids
  {
    if votes == [] then 0
    else
      var init, last := votes[..|votes| - 1], votes[|votes| - 1];
      assert votes == init + [last];
      VotesIn(init, ids) + (if last.choice in ids then 1 else 0)
  }

  /** The votes of one choice: the number of vote records that reference it. */
  function VoteCount(votes: seq<Vote>, choice: ChoiceId): (n: nat)
    ensures n <= |votes|
    ensures n > 0 <==> exists v :: v in votes && v.choice == choice
  {
    VotesIn(votes, {choice})
  }

  /** The votes on question `q`: the records that reference one of its choices. */
  function QuestionVotes(cat: Catalog, votes: seq<Vote>, q: QuestionId): (n: nat)
    ensures n <= |votes|
    ensures n > 0 <==> exists v, c :: v in votes && c in cat.choices && c.question == q && v.choice == c.id
  {
    VotesIn(votes, ChoiceIds(ChoicesOf(cat.choices, q)))
  }

  // ---------------------------------------------------------------------------
  // Lemmas

  /** The boundary cases of the one-day window, both of them inclusive. */
  lemma WasPublishedRecentlyBoundaries(q: Question, now: Instant)
    ensures q.pubDate == now - (Day + 1) ==> !WasPublishedRecently(q, now)
    ensures q.pubDate == now - (Day - 1) ==> WasPublishedRecently(q, now)
    ensures q.pubDate == now - Day ==> WasPublishedRecently(q, now)
    ensures q.pubDate == now ==> WasPublishedRecently(q, now)
    ensures q.pubDate == now + 30 * Day ==> !WasPublishedRecently(q, now)
  {
  }

  /** The voting-window cases: an open-ended published question is votable,
      a window around `now` is votable, a passed end date closes voting, and a
      question not yet published is never votable, even when its end date
      precedes its publication date. */
  lemma CanVoteWindow(q: Question, now: Instant)
    ensures q.pubDate <= now && q.endDate.None? ==> CanVote(q, now)
    ensures q.pubDate <= now && q.endDate.Some? && now <= q.endDate.value ==> CanVote(q, now)
    ensures q.endDate.Some? && q.endDate.value < now ==> !CanVote(q, now)
    ensures now < q.pubDate ==> !IsPublished(q, now) && !CanVote(q, now)
  {
  }

  /** A window whose end precedes its start is never votable, at any instant. */
  lemma ReversedWindowNeverVotable(q: Question)
    requires q.endDate.Some? && q.endDate.value < q.pubDate
    ensures forall now :: !CanVote(q, now)
  {
  }

  /** A freshly created question stays votable for good once it is published. */
  lemma NewQuestionVotableOncePublished(id: QuestionId, text: string, pubDate: Instant, now: Instant)
    ensures CanVote(NewQuestion(id, text, pubDate), now) <==> pubDate <= now
  {
  }

  lemma {:induction false} VotesInAppend(votes: seq<Vote>, v: Vote, ids: set<ChoiceId>)
    ensures VotesIn(votes + [v], ids) == VotesIn(votes, ids) + (if v.choice in ids then 1 else 0)
  {
    assert (votes + [v])[..|votes|] == votes;
  }

  /** Counting over a disjoint union of id sets adds up. */
  lemma {:induction false} VotesInDisjointUnion(votes: seq<Vote>, a: set<ChoiceId>, b: set<ChoiceId>)
    requires a !! b
    ensures VotesIn(votes, a + b) == VotesIn(votes, a) + VotesIn(votes, b)
  {
    if votes != [] {
      VotesInDisjointUnion(votes[..|votes| - 1], a, b);
    }
  }

  /** Replacing one record changes the count by what the old and the new record contribute. */
  lemma {:induction false} VotesInUpdate(votes: seq<Vote>, i: nat, v: Vote, ids: set<ChoiceId>)
    requires i < |votes|
    ensures VotesIn(votes[i := v], ids)
         == VotesIn(votes, ids) - (if votes[i].choice in ids then 1 else 0) + (if v.choice in ids then 1 else 0)
  {
    var n := |votes| - 1;
    var updated := votes[i := v];
    assert updated[..n] == if i == n then votes[..n] else votes[..n][i := v];
    if i < n {
      VotesInUpdate(votes[..n], i, v, ids);
    }
  }

  /** Counting is insensitive to records that reference none of the ids. */
  lemma {:induction false} VotesInNone(votes: seq<Vote>, ids: set<ChoiceId>)
    requires forall v :: v in votes ==> v.choice !in ids
    ensures VotesIn(votes, ids) == 0
  {
    if votes != [] {
      assert votes[|votes| - 1] in votes;
      VotesInNone(votes[..|votes| - 1], ids);
    }
  }

  /** A newly added choice starts with zero votes: when every vote record
      references a choice of the catalog, a choice id not yet in the catalog
      has no votes. */
  lemma NewChoiceHasNoVotes(cat: Catalog, votes: seq<Vote>, newId: ChoiceId)
    requires forall v :: v in votes ==> v.choice in ChoiceIds(cat.choices)
    requires newId !in ChoiceIds(cat.choices)
    ensures VoteCount(votes, newId) == 0
  {
    VotesInNone(votes, {newId});
  }

  /** Under unique choice ids, a choice of the catalog is the one found by its id. */
  lemma FindChoiceUnique(cs: seq<Choice>, c: Choice)
    requires DistinctChoiceIds(cs)
    requires c in cs
    ensures FindChoice(cs, c.id) == Some(c)
  {
    var found := FindChoice(cs, c.id);
    assert c.id in ChoiceIds(cs);
    var i :| 0 <= i < |cs| && cs[i] == found.value;
    var j :| 0 <= j < |cs| && cs[j] == c;
  }

  /** Under unique question ids, a question of the catalog is the one found by its id. */
  lemma FindQuestionUnique(qs: seq<Question>, q: Question)
    requires DistinctQuestionIds(qs)
    requires q in qs
    ensures FindQuestion(qs, q.id) == Some(q)
  {
    var found := FindQuestion(qs, q.id);
    var i :| 0 <= i < |qs| && qs[i] == found.value;
    var j :| 0 <= j < |qs| && qs[j] == q;
  }

  /** With unique primary keys, no question occurs twice in the table. */
  lemma {:induction false} QuestionsOccurOnce(qs: seq<Question>)
    requires DistinctQuestionIds(qs)
    ensures forall q :: multiset(qs)[q] <= 1
  {
    if qs != [] {
      var t := qs[1..];
      assert qs == [qs[0]] + t;
      assert forall i :: 0 <= i < |t| ==> t[i] == qs[i + 1];
      QuestionsOccurOnce(t);
      forall k | 0 <= k < |t| ensures t[k] != qs[0] {
        assert t[k] == qs[k + 1];
      }
    }
  }

  /** The choices of a question keep the catalog's unique ids. */
  lemma {:induction false} ChoicesOfDistinct(cs: seq<Choice>, q: QuestionId)
    requires DistinctChoiceIds(cs)
    ensures DistinctChoiceIds(ChoicesOf(cs, q))
  {
    if cs != [] {
      var init := cs[..|cs| - 1];
      var last := cs[|cs| - 1];
      assert DistinctChoiceIds(init);
      ChoicesOfDistinct(init, q);
      var rest := ChoicesOf(init, q);
      if last.question == q {
        forall k | 0 <= k < |rest| ensures rest[k].id != last.id {
          assert rest[k] in init;
          var m :| 0 <= m < |init| && init[m] == rest[k];
        }
        var r := rest + [last];
        assert forall k :: 0 <= k < |rest| ==> r[k] == rest[k];
      }
    }
  }

  /** A choice id belongs to question `q` exactly when it is the id of one of q's choices. */
  lemma QuestionOfChoicesOf(cat: Catalog, q: QuestionId, choice: ChoiceId)
    requires DistinctChoiceIds(cat.choices)
    ensures QuestionOf(cat, choice) == Some(q) <==> choice in ChoiceIds(ChoicesOf(cat.choices, q))
  {
    if choice in ChoiceIds(ChoicesOf(cat.choices, q)) {
      var c :| c in ChoicesOf(cat.choices, q) && c.id == choice;
      FindChoiceUnique(cat.choices, c);
    }
    if QuestionOf(cat, choice) == Some(q) {
      var c := FindChoice(cat.choices, choice).value;
      assert c in ChoicesOf(cat.choices, q);
    }
  }
}
