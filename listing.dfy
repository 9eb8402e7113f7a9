/**
 * The visibility and listing rules of the poll pages: the index of the five
 * newest visible questions, the decision chain of the detail page, and the
 * lookup of the results page. A question is visible when it is published and
 * has at least one choice.
 */
module Listing {
  import opened Wrappers
  import opened PollModels

  /** The number of questions the index shows. */
  const IndexLength: nat := 5

  /** Published and with at least one choice. */
  predicate Visible(cat: Catalog, q: Question, now: Instant)
    ensures Visible(cat, q, now) <==> q.pubDate <= now && exists c :: c in cat.choices && c.question == q.id
  {
    var cs := ChoicesOf(cat.choices, q.id);
    assert |cs| > 0 ==> cs[0] in cat.choices && cs[0].question == q.id;
    assert forall c :: c in cat.choices && c.question == q.id ==> c in cs;
    IsPublished(q, now) && |ChoicesOf(cat.choices, q.id)| > 0
  }

  /** The visible questions of the table, as a set. */
  function VisibleInTable(cat: Catalog, now: Instant): set<Question>
  {
    set q | q in cat.questions && Visible(cat, q, now)
  }

  /** The visible questions of `qs`, in their order. */
  function FilterVisible(cat: Catalog, qs: seq<Question>, now: Instant): (r: seq<Question>)
    ensures forall q :: q in r <==> q in qs && Visible(cat, q, now)
    ensures forall q :: multiset(r)[q] == if Visible(cat, q, now) then multiset(qs)[q] else 0
    ensures |r| <= |qs|
  {
    if qs == [] then []
    else
      assert qs == [qs[0]] + qs[1..];
      if Visible(cat, qs[0], now) then [qs[0]] + FilterVisible(cat, qs[1..], now)
      else FilterVisible(cat, qs[1..], now)
  }

  /** Newest first. */
  predicate NewestFirst(s: seq<Question>)
  {
    forall i, j :: 0 <= i < j < |s| ==> s[i].pubDate >= s[j].pubDate
  }

  /** Inserts `q` into a newest-first sequence, before every question no newer than it. */
  function InsertByPubDate(q: Question, s: seq<Question>): (r: seq<Question>)
    requires NewestFirst(s)
    ensures NewestFirst(r)
    ensures multiset(r) == multiset(s) + multiset{q}
    ensures |r| == |s| + 1
    ensures r[0] == q || (s != [] && r[0] == s[0])
  {
    if s == [] then [q]
    else if q.pubDate >= s[0].pubDate then [q] + s
    else
      assert s == [s[0]] + s[1..];
      [s[0]] + InsertByPubDate(q, s[1..])
  }

  /** The source's `order_by("-pub_date")`: a rearrangement of `s`, newest first.
      The order of questions with equal publication dates is left to the store. */
  function SortByPubDateDesc(s: seq<Question>): (r: seq<Question>)
    ensures NewestFirst(r)
    ensures multiset(r) == multiset(s)
  {
    if s == [] then []
    else
      assert s == [s[0]] + s[1..];
      InsertByPubDate(s[0], SortByPubDateDesc(s[1..]))
  }

  /** The queryset shared by the detail and results pages: every visible question, newest first. */
  function VisibleQuestions(cat: Catalog, now: Instant): (r: seq<Question>)
    ensures forall q :: q in r <==> q in cat.questions && Visible(cat, q, now)
    ensures forall q :: multiset(r)[q] == if Visible(cat, q, now) then multiset(cat.questions)[q] else 0
    ensures NewestFirst(r)
  {
    var f := FilterVisible(cat, cat.questions, now);
    var r := SortByPubDateDesc(f);
    assert forall q :: q in r <==> q in multiset(r);
    r
  }

  /** The index page: the first five of the visible questions. */
  function IndexQuestions(cat: Catalog, now: Instant): (r: seq<Question>)
    ensures |r| <= IndexLength
    ensures r <= VisibleQuestions(cat, now)
  {
    var all := VisibleQuestions(cat, now);
    if |all| <= IndexLength then all else all[..IndexLength]
  }

  // ---------------------------------------------------------------------------
  // The detail page

  /** Why the detail page sends the user back to the index, or what it shows.
      `DetailNotFound` is the 404 of the underlying object lookup. */
  datatype DetailOutcome =
    | RedirectNoSuchQuestion
    | RedirectVotingClosed(question: Question)
    | ShowDetail(question: Question)
    | DetailNotFound

  /** The detail page: a missing question and a question that cannot be voted on
      redirect to the index; otherwise the question is looked up among the
      visible ones, which fails with not found. */
  function DetailGet(cat: Catalog, pk: QuestionId, now: Instant): (r: DetailOutcome)
    ensures r == RedirectNoSuchQuestion <==> forall q :: q in cat.questions ==> q.id != pk
    ensures r.RedirectVotingClosed? ==> r.question in cat.questions && r.question.id == pk && !CanVote(r.question, now)
    ensures r.ShowDetail? ==> r.question in cat.questions && r.question.id == pk && Visible(cat, r.question, now)
    ensures r.DetailNotFound? ==> forall q :: q in cat.questions && q.id == pk ==> !Visible(cat, q, now)
  {
    match FindQuestion(cat.questions, pk)
    case None => RedirectNoSuchQuestion
    case Some(q) =>
      if !CanVote(q, now) then RedirectVotingClosed(q)
      else
        match FindQuestion(VisibleQuestions(cat, now), pk)
        case None => DetailNotFound
        case Some(shown) => ShowDetail(shown)
  }

  /** The results page: the question is looked up among the visible ones; `None` is not found.
      Unlike the detail page it does not consult the voting window. */
  function ResultsGet(cat: Catalog, pk: QuestionId, now: Instant): (r: Option<Question>)
    ensures r.Some? ==> r.value.id == pk && r.value in cat.questions && Visible(cat, r.value, now)
    ensures r.None? ==> forall q :: q in cat.questions && q.id == pk ==> !Visible(cat, q, now)
  {
    FindQuestion(VisibleQuestions(cat, now), pk)
  }

  // ---------------------------------------------------------------------------
  // Lemmas

  /** Every question on the index is published and has a choice; future and
      choiceless questions never appear. */
  lemma IndexOnlyVisible(cat: Catalog, now: Instant, q: Question)
    requires q in IndexQuestions(cat, now)
    ensures q in cat.questions
    ensures q.pubDate <= now
    ensures |ChoicesOf(cat.choices, q.id)| > 0
  {
    var all := VisibleQuestions(cat, now);
    if |all| > IndexLength {
      assert q in all by {
        var i :| 0 <= i < IndexLength && all[..IndexLength][i] == q;
        assert all[i] == q;
      }
    }
  }

  /** The index is newest first, holds at most five questions, and holds exactly
      five when at least five are visible. */
  lemma IndexOrderAndSize(cat: Catalog, now: Instant)
    ensures NewestFirst(IndexQuestions(cat, now))
    ensures |IndexQuestions(cat, now)| <= IndexLength
    ensures |IndexQuestions(cat, now)| == if |VisibleQuestions(cat, now)| < IndexLength then |VisibleQuestions(cat, now)| else IndexLength
    ensures DistinctQuestionIds(cat.questions) ==>
      |IndexQuestions(cat, now)| == if |VisibleInTable(cat, now)| < IndexLength then |VisibleInTable(cat, now)| else IndexLength
    ensures DistinctQuestionIds(cat.questions) ==> forall q :: multiset(IndexQuestions(cat, now))[q] <= 1
  {
    if DistinctQuestionIds(cat.questions) {
      var all := VisibleQuestions(cat, now);
      VisibleQuestionsOnce(cat, now);
      if |all| > IndexLength {
        PrefixOccursOnce(all, IndexLength);
      }
    }
  }

  /** A prefix of a sequence in which nothing occurs twice has no repeats either. */
  lemma PrefixOccursOnce(s: seq<Question>, n: nat)
    requires n <= |s| && forall x :: multiset(s)[x] <= 1
    ensures forall x :: multiset(s[..n])[x] <= 1
  {
    assert s == s[..n] + s[n..];
    forall x ensures multiset(s[..n])[x] <= 1 {
      assert multiset(s)[x] == multiset(s[..n])[x] + multiset(s[n..])[x];
    }
  }

  /** With unique primary keys the visible queryset lists each visible question
      once, so its length is the number of visible questions in the table. */
  lemma VisibleQuestionsOnce(cat: Catalog, now: Instant)
    requires DistinctQuestionIds(cat.questions)
    ensures forall q :: multiset(VisibleQuestions(cat, now))[q] <= 1
    ensures |VisibleQuestions(cat, now)| == |VisibleInTable(cat, now)|
  {
    var r := VisibleQuestions(cat, now);
    QuestionsOccurOnce(cat.questions);
    NoRepeatLength(r);
    assert (set x | x in r) == VisibleInTable(cat, now);
  }

  /** A sequence in which nothing occurs twice is as long as its set of elements. */
  lemma {:induction false} NoRepeatLength(s: seq<Question>)
    requires forall x :: multiset(s)[x] <= 1
    ensures |s| == |set x | x in s|
  {
    if s != [] {
      var t := s[1..];
      assert s == [s[0]] + t;
      assert forall x :: multiset(t)[x] <= multiset(s)[x];
      NoRepeatLength(t);
      assert s[0] !in multiset(t);
      assert (set x | x in s) == (set x | x in t) + {s[0]};
    }
  }

  /** The index holds the newest visible questions: a visible question left out
      is no newer than any question it shows. */
  lemma {:induction false} IndexIsNewest(cat: Catalog, now: Instant, q: Question)
    requires q in cat.questions && Visible(cat, q, now)
    requires q !in IndexQuestions(cat, now)
    ensures |IndexQuestions(cat, now)| == IndexLength
    ensures forall p :: p in IndexQuestions(cat, now) ==> q.pubDate <= p.pubDate
  {
    var all := VisibleQuestions(cat, now);
    assert q in all;
    if |all| <= IndexLength {
      assert false;
    } else {
      var j :| 0 <= j < |all| && all[j] == q;
      assert forall k :: 0 <= k < IndexLength ==> all[k] in all[..IndexLength];
      assert j >= IndexLength;
      forall p | p in IndexQuestions(cat, now) ensures q.pubDate <= p.pubDate {
        var i :| 0 <= i < IndexLength && all[..IndexLength][i] == p;
        assert all[i] == p;
      }
    }
  }

  /** When at most five questions are visible, the index lists all of them. */
  lemma IndexComplete(cat: Catalog, now: Instant)
    requires DistinctQuestionIds(cat.questions)
    requires |VisibleInTable(cat, now)| <= IndexLength
    ensures IndexQuestions(cat, now) == VisibleQuestions(cat, now)
    ensures forall q :: q in IndexQuestions(cat, now) <==> q in cat.questions && Visible(cat, q, now)
    ensures forall q :: multiset(IndexQuestions(cat, now))[q] <= 1
  {
    VisibleQuestionsOnce(cat, now);
  }

  /** The index of a table with two past questions, 30 and 5 days old, lists
      the newer one first. */
  lemma IndexTwoPastQuestions()
    ensures var q1 := Question(1, "Past question 1.", -30 * Day, None);
      var q2 := Question(2, "Past question 2.", -5 * Day, None);
      var cs := [Choice(1, 1, "Test1"), Choice(2, 1, "Test2"), Choice(3, 2, "Test1"), Choice(4, 2, "Test2")];
      IndexQuestions(Catalog([q1, q2], cs), 0) == [q2, q1]
  {
    var q1 := Question(1, "Past question 1.", -30 * Day, None);
    var q2 := Question(2, "Past question 2.", -5 * Day, None);
    var cs := [Choice(1, 1, "Test1"), Choice(2, 1, "Test2"), Choice(3, 2, "Test1"), Choice(4, 2, "Test2")];
    var cat := Catalog([q1, q2], cs);
    assert cs[0] in cat.choices && cs[2] in cat.choices;
    IndexOfTwoVisible(cat, 0);
  }

  /** Adding a question 10 days in the future leaves the index of two past
      questions as it was. */
  lemma IndexTwoPastOneFuture()
    ensures var q1 := Question(1, "Past question 1.", -30 * Day, None);
      var q2 := Question(2, "Past question 2.", -5 * Day, None);
      var q3 := Question(3, "Future question 3.", 10 * Day, None);
      var cs := [Choice(1, 1, "Test1"), Choice(2, 1, "Test2"), Choice(3, 2, "Test1"), Choice(4, 2, "Test2"),
                 Choice(5, 3, "FOUL TARNISED")];
      IndexQuestions(Catalog([q1, q2, q3], cs), 0) == [q2, q1]
  {
    var q1 := Question(1, "Past question 1.", -30 * Day, None);
    var q2 := Question(2, "Past question 2.", -5 * Day, None);
    var q3 := Question(3, "Future question 3.", 10 * Day, None);
    var cs := [Choice(1, 1, "Test1"), Choice(2, 1, "Test2"), Choice(3, 2, "Test1"), Choice(4, 2, "Test2"),
               Choice(5, 3, "FOUL TARNISED")];
    var cat := Catalog([q1, q2, q3], cs);
    assert cs[0] in cat.choices && cs[2] in cat.choices;
    IndexOfTwoVisible(cat, 0);
  }

  /** A table whose first two questions are visible, the second newer, and whose
      other questions are unpublished has these two on its index, newer first. */
  lemma IndexOfTwoVisible(cat: Catalog, now: Instant)
    requires 2 <= |cat.questions| && Visible(cat, cat.questions[0], now) && Visible(cat, cat.questions[1], now)
    requires cat.questions[0].pubDate < cat.questions[1].pubDate
    requires forall k :: 2 <= k < |cat.questions| ==> cat.questions[k].pubDate > now
    ensures IndexQuestions(cat, now) == [cat.questions[1], cat.questions[0]]
  {
    FilterTwo(cat, cat.questions, now);
    assert cat.questions[..2] == [cat.questions[0], cat.questions[1]];
    SortTwo(cat.questions[1], cat.questions[0]);
  }

  /** Filtering a table whose first two questions are visible and whose other
      questions are not keeps these two. */
  lemma FilterTwo(cat: Catalog, qs: seq<Question>, now: Instant)
    requires 2 <= |qs| && Visible(cat, qs[0], now) && Visible(cat, qs[1], now)
    requires forall k :: 2 <= k < |qs| ==> qs[k].pubDate > now
    ensures FilterVisible(cat, qs, now) == qs[..2]
  {
    assert qs[1..][0] == qs[1];
    assert FilterVisible(cat, qs[2..], now) == [] by {
      assert forall q :: q in qs[2..] ==> !Visible(cat, q, now);
    }
    assert qs[1..][1..] == qs[2..];
  }

  /** Sorting two questions puts the newer first. */
  lemma SortTwo(newer: Question, older: Question)
    requires older.pubDate < newer.pubDate
    ensures SortByPubDateDesc([older, newer]) == [newer, older]
  {
    assert [older, newer][1..] == [newer];
    assert SortByPubDateDesc([newer]) == [newer];
  }

  /** The first step of the detail decision: an id no question has redirects to the index. */
  lemma DetailMissingRedirects(cat: Catalog, pk: QuestionId, now: Instant)
    requires forall q :: q in cat.questions ==> q.id != pk
    ensures DetailGet(cat, pk, now) == RedirectNoSuchQuestion
  {
  }

  /** The second step: an existing question that cannot be voted on (not yet
      published, or past its end date) redirects to the index, whatever its choices. */
  lemma DetailClosedRedirects(cat: Catalog, q: Question, now: Instant)
    requires DistinctQuestionIds(cat.questions)
    requires q in cat.questions && !CanVote(q, now)
    ensures DetailGet(cat, q.id, now) == RedirectVotingClosed(q)
  {
    FindQuestionUnique(cat.questions, q);
  }

  /** The last step: a votable question is shown exactly when it has a choice,
      and otherwise the page is not found. */
  lemma DetailVotableShownIffChoices(cat: Catalog, q: Question, now: Instant)
    requires DistinctQuestionIds(cat.questions)
    requires q in cat.questions && CanVote(q, now)
    ensures |ChoicesOf(cat.choices, q.id)| > 0 ==> DetailGet(cat, q.id, now) == ShowDetail(q)
    ensures |ChoicesOf(cat.choices, q.id)| == 0 ==> DetailGet(cat, q.id, now) == DetailNotFound
  {
    FindQuestionUnique(cat.questions, q);
    var r := FindQuestion(VisibleQuestions(cat, now), q.id);
    if r.Some? {
      var i :| 0 <= i < |cat.questions| && cat.questions[i] == r.value;
      var j :| 0 <= j < |cat.questions| && cat.questions[j] == q;
    }
  }

  /** The detail page shows only a question that has the requested id, can be
      voted on, and has a choice. */
  lemma DetailShownIsVotable(cat: Catalog, pk: QuestionId, now: Instant)
    requires DistinctQuestionIds(cat.questions)
    requires DetailGet(cat, pk, now).ShowDetail?
    ensures var q := DetailGet(cat, pk, now).question;
      q in cat.questions && q.id == pk && CanVote(q, now) && |ChoicesOf(cat.choices, q.id)| > 0
  {
    var q := FindQuestion(cat.questions, pk).value;
    DetailVotableShownIffChoices(cat, q, now);
  }

  /** The results page shows a visible question even after its voting window closed. */
  lemma ResultsIgnoreVotingWindow(cat: Catalog, q: Question, now: Instant)
    requires DistinctQuestionIds(cat.questions)
    requires q in cat.questions && Visible(cat, q, now)
    ensures ResultsGet(cat, q.id, now) == Some(q)
  {
    var r := ResultsGet(cat, q.id, now);
    assert q in VisibleQuestions(cat, now);
    var i :| 0 <= i < |cat.questions| && cat.questions[i] == r.value;
    var j :| 0 <= j < |cat.questions| && cat.questions[j] == q;
  }
}
