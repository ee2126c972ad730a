/** The question table as a store the views change in place: `delete_question`
    (backend/flaskr/__init__.py:185-202) and the insert of POST /questions as its authors
    intended it (lines 147-155, which as written can never run). */
module Store {
  import opened Records
  import opened Paging
  import opened Queries
  import opened Handlers
  import Errors

  /** The reply and the table after DELETE /questions/<id>: 404 and no change for an
      absent id; 422 and no change when the session refuses the delete; otherwise the
      deleted row, formatted before removal, and the table without it. */
  function DeleteOutcome(qs: seq<Question>, id: int, sessionFails: bool): (Response, seq<Question>)
  {
    match IndexOfId(qs, id)
    case None => (Abort(404, Standard), qs)
    case Some(i) =>
      if sessionFails then (Abort(422, Standard), qs)
      else (Ok(Record(qs[i])), RemoveId(qs, id))
  }

  /** Deleting removes exactly the row with that id and leaves every other row, in order;
      an absent id, or a failing session, changes nothing. */
  lemma DeleteSpec(qs: seq<Question>, id: int, sessionFails: bool)
    requires IdsAscending(qs)
    ensures var (r, after) := DeleteOutcome(qs, id, sessionFails);
            && ((forall q :: q in qs ==> q.id != id) ==> r == Abort(404, Standard) && after == qs)
            && ((exists q :: q in qs && q.id == id) && sessionFails ==> r == Abort(422, Standard) && after == qs)
            && ((exists q :: q in qs && q.id == id) && !sessionFails ==>
                  && r.Ok? && r.body.Record? && r.body.record in qs && r.body.record.id == id
                  && |after| == |qs| - 1
                  && IdsAscending(after)
                  && (forall q :: q in after <==> q in qs && q.id != id))
  {
    match IndexOfId(qs, id)
    case None =>
    case Some(i) =>
      if !sessionFails {
        RemoveIdAt(qs, i);
        FilterKeepsIdOrder(qs, (q: Question) => q.id != id);
      }
  }

  /** Once a delete has gone through, deleting the same id again is 404. */
  lemma DeleteAgainNotFound(qs: seq<Question>, id: int, sessionFails: bool)
    requires IdsAscending(qs)
    ensures DeleteOutcome(DeleteOutcome(qs, id, false).1, id, sessionFails).0 == Abort(404, Standard)
  {
    var after := DeleteOutcome(qs, id, false).1;
    assert forall q :: q in after ==> q.id != id by {
      match IndexOfId(qs, id)
      case None =>
      case Some(i) =>
    }
  }

  /** The reply and the table after POST /questions as intended: a search term answers
      the search; otherwise the same checks as the written view, then the new row with
      the next free id is appended and returned, or 422 when the insert fails. */
  function AddOutcome(qs: seq<Question>, nextId: int, form: QuestionForm, insertFails: bool): (Response, seq<Question>, int)
  {
    if form.searchTerm.Some? then (SearchQuestions(qs, form.searchTerm.value), qs, nextId)
    else
      match MissingField(form)
      case Some(message) => (BadRequest(message), qs, nextId)
      case None =>
        if insertFails then (Abort(422, Standard), qs, nextId)
        else
          var q := Question(nextId, form.question.value, form.answer.value, form.category.value, form.difficulty.value);
          (Ok(Record(q)), qs + [q], nextId + 1)
  }

  /** The intended view agrees with the written one wherever the written one answers:
      only a complete form without a search term differs. */
  lemma AddAgreesWhereWrittenAnswers(qs: seq<Question>, nextId: int, form: QuestionForm, insertFails: bool)
    ensures AddNewQuestion(qs, form) != NoResponse ==>
              AddOutcome(qs, nextId, form, insertFails) == (AddNewQuestion(qs, form), qs, nextId)
    ensures AddNewQuestion(qs, form) == NoResponse <==> form.searchTerm.None? && MissingField(form).None?
  {
  }

  /** The page that holds the last row of a table with `n` rows. */
  function LastPage(n: nat): int
  {
    if n == 0 then 1 else (n - 1) / QuestionsPerPage + 1
  }

  /** The last page of a non-empty table is never 404 and ends with its last row. */
  lemma LastPageEndsWithLastRow(qs: seq<Question>, cats: seq<Category>)
    requires qs != []
    ensures GetAllQuestions(qs, cats, LastPage(|qs|)).Ok?
    ensures var page := GetAllQuestions(qs, cats, LastPage(|qs|)).body.questions;
            page != [] && page[|page| - 1] == qs[|qs| - 1]
  {
    var n := |qs|;
    var p := LastPage(n);
    assert (p - 1) * QuestionsPerPage <= n - 1 < p * QuestionsPerPage;
    GetAllQuestionsSpec(qs, cats, p);
  }

  /** A successful intended add appends a row with a fresh id, keeps the table ordered
      by id, holds that id exactly once, and the row shows as the last item of the last
      page of the question list. */
  lemma AddedQuestionOnLastPage(qs: seq<Question>, cats: seq<Category>, nextId: int, form: QuestionForm)
    requires IdsAscending(qs) && forall q :: q in qs ==> q.id < nextId
    requires form.searchTerm.None? && MissingField(form).None?
    ensures var (r, after, next) := AddOutcome(qs, nextId, form, false);
            && r.Ok? && r.body.Record?
            && r.body.record == Question(nextId, form.question.value, form.answer.value,
                                         form.category.value, form.difficulty.value)
            && after == qs + [r.body.record] && next == nextId + 1
            && IdsAscending(after)
            && (forall i :: 0 <= i < |after| && after[i].id == nextId ==> i == |after| - 1)
            && (forall q :: q in after ==> q.id < next)
            && GetAllQuestions(after, cats, LastPage(|after|)).Ok?
            && var page := GetAllQuestions(after, cats, LastPage(|after|)).body.questions;
               page[|page| - 1] == r.body.record
  {
    var (r, after, next) := AddOutcome(qs, nextId, form, false);
    forall i | 0 <= i < |qs| ensures after[i].id < nextId {
      assert after[i] == qs[i] && qs[i] in qs;
    }
    LastPageEndsWithLastRow(after, cats);
  }

  /** The form of backend/test_flaskr.py:114-119 gets no response from the written view,
      which Flask turns into its 500 page, while the intended view inserts the question. */
  lemma WrittenAddDropsCompleteForm(qs: seq<Question>, nextId: int)
    ensures var form := QuestionForm(Some("Yousef"), Some("Almassad"), Some(9000), Some("1"), None);
            && AddNewQuestion(qs, form) == NoResponse
            && Errors.Respond(AddNewQuestion(qs, form)) == Errors.ServerError
            && AddOutcome(qs, nextId, form, false).0 ==
                 Ok(Record(Question(nextId, "Yousef", "Almassad", "1", 9000)))
  {
  }

  /** The question table and the category table. Rows are kept in ascending id order and
      `nextId` is the id the store assigns to the next insert. */
  class QuestionStore {
    var questions: seq<Question>
    var categories: seq<Category>
    var nextId: int

    ghost predicate Valid()
      reads this
    {
      IdsAscending(questions) && forall q :: q in questions ==> q.id < nextId
    }

    constructor (seedQuestions: seq<Question>, seedCategories: seq<Category>, firstFreeId: int)
      requires IdsAscending(seedQuestions) && forall q :: q in seedQuestions ==> q.id < firstFreeId
      ensures Valid()
      ensures questions == seedQuestions && categories == seedCategories && nextId == firstFreeId
    {
      questions := seedQuestions;
      categories := seedCategories;
      nextId := firstFreeId;
    }

    /** DELETE /questions/<id>; `sessionFails` stands for `db.session.delete` raising. */
    method DeleteQuestion(id: int, sessionFails: bool) returns (r: Response)
      requires Valid()
      modifies this
      ensures Valid()
      ensures (r, questions) == DeleteOutcome(old(questions), id, sessionFails)
      ensures categories == old(categories) && nextId == old(nextId)
    {
      var found := IndexOfId(questions, id);
      if found.None? {
        return Abort(404, Standard);
      }
      var i := found.value;
      var question := questions[i];
      if sessionFails {
        return Abort(422, Standard);
      }
      RemoveIdAt(questions, i);
      FilterKeepsIdOrder(questions, (q: Question) => q.id != id);
      questions := questions[..i] + questions[i + 1..];
      r := Ok(Record(question));
    }

    /** POST /questions as intended; `insertFails` stands for the session refusing the
        new row. */
    method AddNewQuestionAsIntended(form: QuestionForm, insertFails: bool) returns (r: Response)
      requires Valid()
      modifies this
      ensures Valid()
      ensures (r, questions, nextId) == AddOutcome(old(questions), old(nextId), form, insertFails)
      ensures categories == old(categories)
    {
      if form.searchTerm.Some? {
        return SearchQuestions(questions, form.searchTerm.value);
      }
      var missing := MissingField(form);
      if missing.Some? {
        return BadRequest(missing.value);
      }
      if insertFails {
        return Abort(422, Standard);
      }
      var question := Question(nextId, form.question.value, form.answer.value, form.category.value, form.difficulty.value);
      assert forall i :: 0 <= i < |questions| ==> questions[i] in questions;
      questions := questions + [question];
      nextId := nextId + 1;
      r := Ok(Record(question));
    }
  }

  /** backend/test_flaskr.py:150-166: a delete that goes through, then the same delete
      again, which is 404. */
  method DeleteTwice(store: QuestionStore, id: int) returns (first: Response, second: Response)
    requires store.Valid()
    modifies store
    ensures store.Valid()
    ensures first == DeleteOutcome(old(store.questions), id, false).0
    ensures (exists q :: q in old(store.questions) && q.id == id) ==>
              first.Ok? && first.body.Record? && first.body.record in old(store.questions)
              && first.body.record.id == id
    ensures second == Abort(404, Standard)
    ensures store.questions == RemoveId(old(store.questions), id)
    ensures store.categories == old(store.categories) && store.nextId == old(store.nextId)
  {
    ghost var before := store.questions;
    first := store.DeleteQuestion(id, false);
    DeleteSpec(before, id, false);
    DeleteAgainNotFound(before, id, false);
    if IndexOfId(before, id).None? {
      RemoveIdAbsent(before, id);
    }
    ghost var mid := store.questions;
    assert forall k :: 0 <= k < |mid| ==> mid[k].id != id by {
      forall k | 0 <= k < |mid| ensures mid[k].id != id {
        assert mid[k] in mid;
      }
    }
    second := store.DeleteQuestion(id, false);
    RemoveIdAbsent(mid, id);
  }
}
