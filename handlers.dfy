/** The views of `create_app` (backend/flaskr/__init__.py:57-228) as functions of the
    tables: each builds a list, takes a page window of it and aborts with 404 when the
    window is empty. */
module Handlers {
  import opened Records
  import opened Paging
  import opened Queries

  /** GET /categories: every category, ordered by id. */
  function GetAllCategories(cats: seq<Category>): (r: Response)
    ensures r.Ok? && r.body.CategoryList?
    ensures SortedById(r.body.categories)
    ensures multiset(r.body.categories) == multiset(cats)
  {
    Ok(CategoryList(SortById(cats)))
  }

  /** `request.args.get('page', 1, type=int)`: `None` is a missing or non-integer value. */
  function RequestedPage(arg: Option<int>): int
  {
    match arg
    case None => 1
    case Some(p) => p
  }

  /** GET /questions?page=p */
  function GetAllQuestions(qs: seq<Question>, cats: seq<Category>, page: int): Response
  {
    var sublist := PagedList(qs, page);
    if |sublist| == 0 then Abort(404, Standard)
    else Ok(QuestionPage(sublist, |qs|, Some(cats), None))
  }

  /** For a positive page: 404 exactly when the table has no row at or beyond the page's
      start; otherwise rows `(page - 1) * 10` up to `page * 10` of the id-ordered table,
      the count of all rows, the categories and no current category. */
  lemma GetAllQuestionsSpec(qs: seq<Question>, cats: seq<Category>, page: int)
    requires page >= 1
    ensures GetAllQuestions(qs, cats, page) == Abort(404, Standard)
            <==> |qs| <= (page - 1) * QuestionsPerPage
    ensures |qs| > (page - 1) * QuestionsPerPage ==>
              GetAllQuestions(qs, cats, page) ==
                Ok(QuestionPage(qs[(page - 1) * QuestionsPerPage .. Min(page * QuestionsPerPage, |qs|)],
                                |qs|, Some(cats), None))
    ensures IdsAscending(qs) && GetAllQuestions(qs, cats, page).Ok? ==>
              IdsAscending(GetAllQuestions(qs, cats, page).body.questions)
  {
    PagedListWindow(qs, page);
    if |qs| > (page - 1) * QuestionsPerPage {
      PagedListSlice(qs, page);
    }
  }

  /** A request without a usable page number lists the first page: 404 exactly when the
      table is empty, otherwise its first ten rows. */
  lemma MissingPageIsFirstPage(qs: seq<Question>, cats: seq<Category>, arg: Option<int>)
    requires arg.None?
    ensures GetAllQuestions(qs, cats, RequestedPage(arg)) == Abort(404, Standard) <==> qs == []
    ensures qs != [] ==>
              GetAllQuestions(qs, cats, RequestedPage(arg)) ==
                Ok(QuestionPage(qs[..Min(QuestionsPerPage, |qs|)], |qs|, Some(cats), None))
  {
    GetAllQuestionsSpec(qs, cats, 1);
  }

  /** With eleven questions, page 1 lists ten, page 2 lists the eleventh, page 3 is 404. */
  lemma ElevenQuestions(qs: seq<Question>, cats: seq<Category>)
    requires |qs| == 11
    ensures |GetAllQuestions(qs, cats, 1).body.questions| == 10
    ensures GetAllQuestions(qs, cats, 2).body.questions == [qs[10]]
    ensures GetAllQuestions(qs, cats, 3) == Abort(404, Standard)
  {
    GetAllQuestionsSpec(qs, cats, 1);
    GetAllQuestionsSpec(qs, cats, 2);
    GetAllQuestionsSpec(qs, cats, 3);
  }

  const QuestionMissing := "The question cannot be empty."
  const AnswerMissing := "The answer cannot be empty."
  const DifficultyMissing := "The difficulty cannot be empty."
  const CategoryMissing := "The category cannot be empty."
  const NoMatch := "Sorry, no question contains what you have searched for."

  /** The 400 message of the first field, in the order question, answer, difficulty,
      category, that the form does not carry. */
  function MissingField(form: QuestionForm): Option<string>
  {
    if form.question.None? then Some(QuestionMissing)
    else if form.answer.None? then Some(AnswerMissing)
    else if form.difficulty.None? then Some(DifficultyMissing)
    else if form.category.None? then Some(CategoryMissing)
    else None
  }

  /** The questions whose text contains `term`. */
  function Matches(qs: seq<Question>, term: string): seq<Question>
  {
    Filter(qs, (q: Question) => ContainsSubstring(q.question, term))
  }

  /** The search branch of POST /questions. */
  function SearchQuestions(qs: seq<Question>, term: string): Response
  {
    var sublist := PagedList(Matches(qs, term), 1);
    if |sublist| == 0 then Abort(404, Fields(map["message" := NoMatch]))
    else Ok(QuestionPage(sublist, |qs|, None, None))
  }

  /** POST /questions as written: with no search term it validates the fields and then
      falls off the end, because the insert is nested under the last failed check. */
  function AddNewQuestion(qs: seq<Question>, form: QuestionForm): Response
  {
    if form.searchTerm.None? then
      match MissingField(form)
      case Some(message) => BadRequest(message)
      case None => NoResponse
    else SearchQuestions(qs, form.searchTerm.value)
  }

  /** Without a search term the first missing field, in the order question, answer,
      difficulty, category, alone decides the 400 message; a complete form gets no
      response at all. The table is not an input of the outcome's kind. */
  lemma ValidationOrder(qs: seq<Question>, form: QuestionForm)
    requires form.searchTerm.None?
    ensures form.question.None? ==> AddNewQuestion(qs, form) == BadRequest(QuestionMissing)
    ensures form.question.Some? && form.answer.None? ==>
              AddNewQuestion(qs, form) == BadRequest(AnswerMissing)
    ensures form.question.Some? && form.answer.Some? && form.difficulty.None? ==>
              AddNewQuestion(qs, form) == BadRequest(DifficultyMissing)
    ensures form.question.Some? && form.answer.Some? && form.difficulty.Some? && form.category.None? ==>
              AddNewQuestion(qs, form) == BadRequest(CategoryMissing)
    ensures form.question.Some? && form.answer.Some? && form.difficulty.Some? && form.category.Some? ==>
              AddNewQuestion(qs, form) == NoResponse
    ensures forall other :: AddNewQuestion(other, form) == AddNewQuestion(qs, form)
  {
  }

  /** Two forms without a search term that agree on which fields are present up to the
      first missing one get the same reply, whatever the remaining fields hold. */
  lemma FirstMissingFieldDecides(qs: seq<Question>, f: QuestionForm, g: QuestionForm)
    requires f.searchTerm.None? && g.searchTerm.None?
    requires f.question.None? <==> g.question.None?
    requires f.question.Some? ==> (f.answer.None? <==> g.answer.None?)
    requires f.question.Some? && f.answer.Some? ==> (f.difficulty.None? <==> g.difficulty.None?)
    requires f.question.Some? && f.answer.Some? && f.difficulty.Some? ==>
               (f.category.None? <==> g.category.None?)
    ensures AddNewQuestion(qs, f) == AddNewQuestion(qs, g)
  {
  }

  /** A search term bypasses every field check: forms with the same term get the same
      reply, the search's, whatever their other fields. */
  lemma SearchBypassesValidation(qs: seq<Question>, f: QuestionForm, g: QuestionForm)
    requires f.searchTerm.Some? && g.searchTerm == f.searchTerm
    ensures AddNewQuestion(qs, f) == AddNewQuestion(qs, g) == SearchQuestions(qs, f.searchTerm.value)
  {
  }

  /** The search fails with 404 and its own message exactly when no question's text
      contains the term; otherwise it lists the first ten matches in table order, each
      of which contains the term, with the count of all questions. */
  lemma SearchSpec(qs: seq<Question>, term: string)
    ensures SearchQuestions(qs, term) == Abort(404, Fields(map["message" := NoMatch]))
            <==> forall q :: q in qs ==> !exists i :: OccursAt(q.question, term, i)
    ensures SearchQuestions(qs, term).Ok? ==>
              var page := SearchQuestions(qs, term).body;
              && page.questions == Matches(qs, term)[..Min(QuestionsPerPage, |Matches(qs, term)|)]
              && (forall q :: q in page.questions ==> q in qs && exists i :: OccursAt(q.question, term, i))
              && page.totalQuestions == |qs|
              && page.listedCategories == None && page.currentCategory == None
    ensures IdsAscending(qs) && SearchQuestions(qs, term).Ok? ==>
              IdsAscending(SearchQuestions(qs, term).body.questions)
  {
    var m := Matches(qs, term);
    forall q | q in qs ensures ContainsSubstring(q.question, term) <==> exists i :: OccursAt(q.question, term, i) {
      ContainsSubstringIff(q.question, term);
    }
    PagedListWindow(m, 1);
    if m != [] {
      PagedListSlice(m, 1);
      assert forall q :: q in m[..Min(QuestionsPerPage, |m|)] ==> q in m;
      assert m[0] in m && ContainsSubstring(m[0].question, term);
    } else {
      assert forall q :: q in qs ==> !ContainsSubstring(q.question, term);
    }
    if IdsAscending(qs) {
      FilterKeepsIdOrder(qs, (q: Question) => ContainsSubstring(q.question, term));
    }
  }

  /** An empty search term is present, not missing: it matches every question. */
  lemma EmptyTermListsFirstPage(qs: seq<Question>)
    requires qs != []
    ensures SearchQuestions(qs, "") == Ok(QuestionPage(qs[..Min(QuestionsPerPage, |qs|)], |qs|, None, None))
  {
    FilterKeepsAll(qs, (q: Question) => ContainsSubstring(q.question, ""));
    PagedListSlice(qs, 1);
  }

  /** The questions whose category equals `c`. */
  function InCategory(qs: seq<Question>, c: string): seq<Question>
  {
    Filter(qs, (q: Question) => q.category == c)
  }

  /** GET /categories/<c>/questions */
  function QuestionsForCategory(qs: seq<Question>, c: string): Response
  {
    var sublist := PagedList(InCategory(qs, c), 1);
    if |sublist| == 0 then Abort(404, Standard)
    else Ok(QuestionPage(sublist, |qs|, None, Some(c)))
  }

  /** 404 exactly when no question has category `c`; otherwise the first ten questions of
      that category in table order, the count of all questions and `c` as the current
      category. */
  lemma QuestionsForCategorySpec(qs: seq<Question>, c: string)
    ensures QuestionsForCategory(qs, c) == Abort(404, Standard) <==> forall q :: q in qs ==> q.category != c
    ensures QuestionsForCategory(qs, c).Ok? ==>
              var page := QuestionsForCategory(qs, c).body;
              && page.questions == InCategory(qs, c)[..Min(QuestionsPerPage, |InCategory(qs, c)|)]
              && (forall q :: q in page.questions ==> q in qs && q.category == c)
              && page.totalQuestions == |qs|
              && page.listedCategories == None && page.currentCategory == Some(c)
    ensures IdsAscending(qs) && QuestionsForCategory(qs, c).Ok? ==>
              IdsAscending(QuestionsForCategory(qs, c).body.questions)
  {
    var m := InCategory(qs, c);
    PagedListWindow(m, 1);
    if m != [] {
      PagedListSlice(m, 1);
      assert forall q :: q in m[..Min(QuestionsPerPage, |m|)] ==> q in m;
      assert m[0] in m;
    }
    if IdsAscending(qs) {
      FilterKeepsIdOrder(qs, (q: Question) => q.category == c);
    }
  }
}
