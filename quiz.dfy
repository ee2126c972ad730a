/** POST /quizzes, `create_quiz` (backend/flaskr/__init__.py:243-262). The exclusion of
    previously asked questions is kept abstract: `asked` says which questions it removes.
    As written it compares a question row with each string of `previous_questions` by
    `==` (`sameAs`); as intended it compares ids. `roll` stands for the random source
    behind `random.choice`. */
module Quiz {
  import opened Records
  import opened Queries

  /** The questions of the quiz category when one is given and not empty, else all. */
  function Candidates(qs: seq<Question>, quizCategory: Option<string>): seq<Question>
  {
    if quizCategory.Some? && quizCategory.value != "" then Filter(qs, (q: Question) => q.category == quizCategory.value)
    else qs
  }

  /** The candidates the exclusion test keeps. */
  function Eligible(candidates: seq<Question>, asked: Question -> bool): seq<Question>
  {
    Filter(candidates, (q: Question) => !asked(q))
  }

  /** `random.choice(new_questions)` when the list is not empty, else `None`. */
  function Pick(eligible: seq<Question>, roll: nat): Option<Question>
  {
    if |eligible| > 0 then Some(eligible[roll % |eligible|]) else None
  }

  function DrawQuestion(qs: seq<Question>, quizCategory: Option<string>, asked: Question -> bool, roll: nat): Response
  {
    Ok(QuizQuestion(Pick(Eligible(Candidates(qs, quizCategory), asked), roll)))
  }

  /** `question not in previous_questions`, with `sameAs` for `Question.__eq__` against a
      form string. */
  predicate InPrevious(q: Question, previous: seq<string>, sameAs: (Question, string) -> bool)
  {
    exists p | p in previous :: sameAs(q, p)
  }

  /** The exclusion test as written. */
  function AskedAsWritten(previous: seq<string>, sameAs: (Question, string) -> bool): Question -> bool
  {
    (q: Question) => InPrevious(q, previous, sameAs)
  }

  /** The view as written. */
  function CreateQuiz(qs: seq<Question>, quizCategory: Option<string>, previous: seq<string>,
                      sameAs: (Question, string) -> bool, roll: nat): Response
  {
    DrawQuestion(qs, quizCategory, AskedAsWritten(previous, sameAs), roll)
  }

  /** Equality of a row compared by identity with a string: never true. */
  function NeverEqual(q: Question, p: string): bool
  {
    false
  }

  /** The view as intended: a question is excluded when its id was asked before. */
  function CreateQuizById(qs: seq<Question>, quizCategory: Option<string>, previousIds: seq<int>, roll: nat): Response
  {
    DrawQuestion(qs, quizCategory, (q: Question) => q.id in previousIds, roll)
  }

  /** Whatever the exclusion test: the reply is always a success; it is null exactly when
      every candidate is excluded; otherwise it is a question of the table, of the quiz
      category when one was given, that the test does not exclude. */
  lemma DrawQuestionSpec(qs: seq<Question>, quizCategory: Option<string>, asked: Question -> bool, roll: nat)
    ensures DrawQuestion(qs, quizCategory, asked, roll).Ok?
    ensures DrawQuestion(qs, quizCategory, asked, roll).body.QuizQuestion?
    ensures var next := DrawQuestion(qs, quizCategory, asked, roll).body.next;
            && (next == None <==> forall q :: q in Candidates(qs, quizCategory) ==> asked(q))
            && (next.Some? ==> next.value in qs && !asked(next.value))
            && (next.Some? && quizCategory.Some? && quizCategory.value != "" ==>
                  next.value.category == quizCategory.value)
  {
    var e := Eligible(Candidates(qs, quizCategory), asked);
    if e != [] {
      assert e[0] in e;
      assert e[roll % |e|] in e;
    }
  }

  /** No eligible question is out of reach of the draw: for each there is a value of the
      random source that picks it. */
  lemma EveryEligibleCanBeDrawn(eligible: seq<Question>, q: Question)
    requires q in eligible
    ensures exists roll: nat :: Pick(eligible, roll) == Some(q)
  {
    var k :| 0 <= k < |eligible| && eligible[k] == q;
    assert k % |eligible| == k;
    assert Pick(eligible, k) == Some(q);
  }

  /** The intended view never serves a question whose id was asked before, and is null
      exactly when every candidate's id was asked. */
  lemma CreateQuizByIdNeverRepeats(qs: seq<Question>, quizCategory: Option<string>, previousIds: seq<int>, roll: nat)
    ensures var next := CreateQuizById(qs, quizCategory, previousIds, roll).body.next;
            && (next.Some? ==> next.value in qs && next.value.id !in previousIds)
            && (next == None <==> forall q :: q in Candidates(qs, quizCategory) ==> q.id in previousIds)
  {
    DrawQuestionSpec(qs, quizCategory, (q: Question) => q.id in previousIds, roll);
  }

  /** When a question row never equals a string, as for rows compared by identity, the
      written test excludes nothing: every candidate stays eligible. */
  lemma IdentityExcludesNothing(qs: seq<Question>, quizCategory: Option<string>, previous: seq<string>)
    ensures Eligible(Candidates(qs, quizCategory), AskedAsWritten(previous, NeverEqual)) == Candidates(qs, quizCategory)
  {
    NothingAskedKeepsAll(Candidates(qs, quizCategory), AskedAsWritten(previous, NeverEqual));
  }

  lemma NothingAskedKeepsAll(c: seq<Question>, asked: Question -> bool)
    requires forall q :: q in c ==> !asked(q)
    ensures Eligible(c, asked) == c
  {
    FilterKeepsAll(c, (q: Question) => !asked(q));
  }

  /** A question already asked, id 2 with "2" among `previous_questions`, is served again
      by the view as written, and never by the intended view. */
  lemma AskedQuestionServedAgain()
    ensures var q := Question(2, "Q", "A", "1", 1);
            && CreateQuiz([q], None, ["2"], NeverEqual, 0) == Ok(QuizQuestion(Some(q)))
            && CreateQuizById([q], None, [2], 0) == Ok(QuizQuestion(None))
  {
    var q := Question(2, "Q", "A", "1", 1);
    IdentityExcludesNothing([q], None, ["2"]);
    CreateQuizByIdNeverRepeats([q], None, [2], 0);
  }
}
