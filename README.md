# Trivia catalog: a verified model of the question rules

This project models the question catalog of the Trivia API backend: the rules that
`create_app` in `backend/flaskr/__init__.py` applies to the question and category tables.
The database is replaced by an in-memory store: the question table is a sequence of rows
(`id`, `question`, `answer`, `category`, `difficulty`) kept in ascending id order, the
category table a sequence of `(id, type)` rows. The views become functions of those
tables; the two places that change the table (deleting a question, and the insert that
POST /questions was meant to perform) are methods of a `QuestionStore` class.

Modules, one per concern of the source file:

- `Records`: the rows, the POST /questions form, the abort description, the JSON bodies
  and the outcome of a view (a body, an abort, or no response at all).
- `Paging`: `paged_list`, a ten-item window taken with Python's slice semantics, so
  negative bounds count from the end of the list.
- `Queries`: the list comprehensions and query filters (filter, substring test, lookup
  by id, removal by id, ordering categories by id).
- `Handlers`: GET /categories, GET /questions, POST /questions (validation and search) and
  GET /categories/<id>/questions.
- `Quiz`: POST /quizzes, with the exclusion test as a parameter.
- `Errors`: `getCustomErrorMessage`, the four error handlers and how Flask turns a view's
  outcome into a reply.
- `Store`: the `QuestionStore` class, the delete and the intended insert.

Where the code and the product's design disagree, the model follows the code:

- POST /questions never inserts: the insert is nested under `if category is None:` after
  `abort`, so a complete form falls off the end of the view (`NoResponse`), which Flask
  answers with its 500 page. The intended insert is modelled separately (see Findings).
- An empty search term is present, not missing: it takes the search branch and matches
  every question.
- The page number is any integer. Page 0 is always 404; a negative page counts from the
  end of the list and can return questions.
- A bare `abort(404)` reaches the client as "resource not found"; the test at
  `backend/test_flaskr.py:81` expects "Page not found".
- The quiz's exclusion compares question rows with strings, not ids (see Findings).
- An abort whose dictionary has no "message" key makes the handler raise KeyError, which
  is not caught: Flask's 500 page.

## Model

| member | source | states |
|---|---|---|
| Paging.PagedListWindow | backend/flaskr/__init__.py:38-43 | for page >= 1 the window holds at most ten items, exactly `max(0, min(10, n - (page-1)*10))` of them, is empty iff the list has no item at or past the page's start, and its item i is list item (page-1)*10+i |
| Paging.PagedListSlice | backend/flaskr/__init__.py:38-43 | for page >= 1 with a non-empty window, the window is the list slice from (page-1)*10 to min(page*10, n) |
| Paging.PagedListNonPositive | backend/flaskr/__init__.py:38-43 | page 0 is always empty; a negative page is non-empty iff n + 10*page > 0, and then it is the window of up to ten items ending 10*(-page) items before the end |
| Paging.ItemOnItsPage | backend/flaskr/__init__.py:38-43 | every item i of the list is on page i/10+1 at position i%10 |
| Paging.FirstPagesArePrefix | backend/flaskr/__init__.py:38-43 | pages 1..k concatenated are exactly the first 10k items: no page repeats or skips an item |
| Queries.Filter | backend/flaskr/__init__.py:216-217 | a row is in the filtered list iff it is in the table and passes the test; the result is no longer than the table |
| Queries.FilterKeepsIdOrder | backend/flaskr/__init__.py:216-217 | filtering an id-ordered table yields an id-ordered list |
| Queries.FilterKeepsAll | backend/flaskr/__init__.py:254-256 | a test that every row passes leaves the list unchanged |
| Queries.ContainsSubstringIff | backend/flaskr/__init__.py:161 | the substring test holds iff the term occurs in the text at some index |
| Queries.IndexOfId | backend/flaskr/__init__.py:188 | the lookup finds a position holding a row with that id, and finds none iff no row has that id |
| Queries.RemoveIdAt | backend/flaskr/__init__.py:195 | in an id-ordered table, deleting the id at position i leaves exactly the rows before and after i, in order |
| Queries.RemoveIdAbsent | backend/flaskr/__init__.py:195 | deleting an id no row has leaves the table as it is |
| Queries.InsertById | backend/flaskr/__init__.py:59 | inserting into an id-sorted list keeps it sorted and adds exactly that category |
| Queries.SortById | backend/flaskr/__init__.py:59 | ordering by id gives a list sorted by id that is a permutation of the table |
| Handlers.GetAllCategories | backend/flaskr/__init__.py:57-65 | GET /categories always succeeds with every category, each once, ordered by id |
| Handlers.GetAllQuestionsSpec | backend/flaskr/__init__.py:81-103 | for page >= 1: 404 iff no row lies at or past the page's start; otherwise rows (page-1)*10 to page*10 of the table, in id order when the table is, the count of all rows, the categories in table order and a null current category |
| Handlers.MissingPageIsFirstPage | backend/flaskr/__init__.py:84-92 | a missing or non-integer page number lists page 1: 404 iff the table is empty, otherwise its first ten rows |
| Handlers.ElevenQuestions | backend/flaskr/__init__.py:84-92 | with eleven questions page 1 has ten, page 2 only the eleventh, page 3 is 404 |
| Handlers.ValidationOrder | backend/flaskr/__init__.py:133-155 | with no search term the first missing field in the order question, answer, difficulty, category gives its own 400 message, a complete form gets no response, and the table plays no part |
| Handlers.FirstMissingFieldDecides | backend/flaskr/__init__.py:135-145 | forms that agree on presence up to the first missing field get the same reply whatever their later fields |
| Handlers.SearchBypassesValidation | backend/flaskr/__init__.py:131-163 | with a search term no field is checked: forms with the same term get the search's reply |
| Handlers.SearchSpec | backend/flaskr/__init__.py:157-173 | 404 with "Sorry, no question contains what you have searched for." iff no question's text contains the term; otherwise the first ten matches in table order, each containing the term, the count of all questions, null current category |
| Handlers.EmptyTermListsFirstPage | backend/flaskr/__init__.py:131-163 | on a non-empty table, an empty search term lists its first page (the first ten questions) |
| Handlers.QuestionsForCategorySpec | backend/flaskr/__init__.py:213-228 | 404 iff no question has that category; otherwise the first ten questions of it in table order, the count of all questions and the category as current |
| Quiz.DrawQuestionSpec | backend/flaskr/__init__.py:250-262 | the reply is never an error; it is null iff the test excludes every candidate; otherwise a question of the table, of the quiz category when one is given and non-empty, that the test does not exclude |
| Quiz.EveryEligibleCanBeDrawn | backend/flaskr/__init__.py:258-260 | every eligible question is drawn for some value of the random source |
| Quiz.NothingAskedKeepsAll | backend/flaskr/__init__.py:256 | an exclusion test that excludes no candidate leaves all of them eligible |
| Quiz.IdentityExcludesNothing | backend/flaskr/__init__.py:256 | when a row never equals a form string, the written exclusion keeps every candidate |
| Quiz.AskedQuestionServedAgain | backend/flaskr/__init__.py:256 | question 2 with "2" already asked is served again as written, and not by the id-based view |
| Quiz.CreateQuizByIdNeverRepeats | backend/flaskr/__init__.py:256 | the id-based view never serves a question whose id was asked, and is null iff every candidate's id was asked |
| Errors.HandlerMessage | backend/flaskr/__init__.py:274-311 | each of the 400, 404, 405, 422 handlers replies success false, its own code, and the abort's "message" when it gave a dictionary, else "bad request", "resource not found", "method not allowed" or "unprocessable" |
| Errors.UnhandledAbort | backend/flaskr/__init__.py:274-278 | an abort to one of the four handlers with a dictionary lacking "message" makes the handler raise KeyError, which ends in Flask's 500 page |
| Errors.NoHandlerDefaultPage | backend/flaskr/__init__.py:281-311 | an abort with a code werkzeug defines and none of the four handlers is registered for reaches the client with that code and werkzeug's default page |
| Errors.UnknownCodeServerError | backend/flaskr/__init__.py:281-311 | an abort with a code werkzeug has no exception for raises LookupError, which no handler catches: Flask's 500 page |
| Errors.BareNotFoundMessage | backend/flaskr/__init__.py:289-295 | a bare abort(404) replies "resource not found", never "Page not found" |
| Store.DeleteSpec | backend/flaskr/__init__.py:185-202 | an absent id is 404 with the table unchanged; a failing session is 422 with the table unchanged; otherwise the reply is the row with that id as it was, and the table loses exactly that row, stays id-ordered and keeps every other row |
| Store.DeleteAgainNotFound | backend/flaskr/__init__.py:185-192 | after a delete that went through, deleting the same id again is 404 |
| Store.AddAgreesWhereWrittenAnswers | backend/flaskr/__init__.py:133-155 | the written view gives no response iff the form has no search term and no missing field; everywhere else the intended view replies the same and changes nothing |
| Store.LastPageEndsWithLastRow | backend/flaskr/__init__.py:84-99 | the last page of a non-empty table is never 404 and ends with the table's last row |
| Store.AddedQuestionOnLastPage | backend/flaskr/__init__.py:147-155 | an intended add returns the new row with the next id, appends it, keeps ids ordered and unique and below the next free id, and the row ends the last page of the question list |
| Store.WrittenAddDropsCompleteForm | backend/flaskr/__init__.py:144-155 | the complete form of the add test gets no response and Flask's 500 page as written, while the intended view inserts it |
| Store.QuestionStore.constructor | backend/flaskr/__init__.py:14-17 | a store over id-ordered seed rows holds them unchanged and satisfies the store invariant |
| Store.QuestionStore.DeleteQuestion | backend/flaskr/__init__.py:185-202 | the reply and the new table are those of DeleteOutcome; the categories and the next id do not change and the table stays id-ordered |
| Store.QuestionStore.AddNewQuestionAsIntended | backend/flaskr/__init__.py:124-155 | the reply, the new table and the next id are those of AddOutcome; the categories do not change and the table stays id-ordered |
| Store.DeleteTwice | backend/test_flaskr.py:150-166 | the first delete replies as DeleteOutcome does, returning the table's row with that id when there is one; the second delete of the same id is 404; afterwards the table is the old one without that id, and the categories and next id are unchanged |

## Left out

- Flask routing, CORS and the `after_request` headers, `jsonify` and request parsing: form and
  query values reach the model already typed (`Option<int>` for difficulty, text for the
  category); text-to-integer coercion by the database is not modelled.
- `request.args.get('page', 1, type=int)` is modelled only as "a missing or non-integer value
  is page 1" (`Handlers.RequestedPage`, used by `Handlers.MissingPageIsFirstPage`); which
  strings convert to an integer is not modelled.
- A non-integer question id in the URL (a database error) is not modelled: ids are integers.
- SQLAlchemy sessions: `commit` failures, transaction isolation and concurrent requests. A
  failing `session.delete` or insert is a boolean parameter that yields 422 with the table
  unchanged.
- Queries without `order_by` are taken in the store's order, for which the database gives no
  guarantee: the search and category filters in ascending question id (the order the store
  keeps), `Category.query.all()` in the order the categories were seeded, which the store
  does not constrain.
- `Question.question.contains` is modelled as a plain case-sensitive substring test; the
  wildcards `%` and `_` that SQL LIKE gives to a term containing them are not modelled.
- `Question.format()` and `Category.format()` are the rows themselves; `models.py` is not
  part of this model, so `Question.__eq__` is the parameter `sameAs` of `Quiz.CreateQuiz`.
- `random.choice`: the random source is the parameter `roll`; only membership in the
  eligible list and reachability of each eligible question are proved, not uniformity.
- `Store.QuestionStore.AddNewQuestionAsIntended`: a failing insert is 422; as the code
  stands, the `return` inside `finally` would swallow that abort.
- The unused constant `QUESTIONS_PER_PAGE = 100`, the `print` calls, and `backend/config.py`
  (a connection dictionary with no logic).
- `Errors.WerkzeugCode` lists the codes of werkzeug's `default_exceptions` in its recent
  releases; older releases lack a few of them (such as 421), which is not modelled.
- The 405 answer itself arises in routing, which is not modelled; only its handler's message is.

## Findings

| source | as written | input that shows it | evidently intended | confidence | as-written member | corrected member |
|---|---|---|---|---|---|---|
| backend/flaskr/__init__.py:144-155 | the insert, commit and return are indented under `if category is None:` after `abort`, so they never run: a complete form gets no response (Flask's 500) and nothing is inserted | question "Yousef", answer "Almassad", difficulty 9000, category "1", no search term | insert the row with the next id and return it | high; not executed | Store.WrittenAddDropsCompleteForm | Store.AddedQuestionOnLastPage |
| backend/flaskr/__init__.py:256 | `question not in previous_questions` compares a question row with the strings of the form, so a row compared by identity is never excluded | a table holding only question 2, `previous_questions` = ["2"], no quiz category | exclude the questions whose id was asked before | medium (depends on `Question.__eq__` in models.py); not executed | Quiz.AskedQuestionServedAgain | Quiz.CreateQuizByIdNeverRepeats |
