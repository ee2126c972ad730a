/** The values the trivia catalog works on: the two tables, the request form of the
    question POST and the outcomes a view function can produce. */
module Records {

  datatype Option<+T> = None | Some(value: T)

  /** A row of the question table, in the shape `Question.format()` serialises it.
      `category` is the text the views compare with the URL segment or form field. */
  datatype Question = Question(id: int, question: string, answer: string, category: string, difficulty: int)

  /** A row of the category table; `kind` is the column the source calls `type`. */
  datatype Category = Category(id: int, kind: string)

  /** Ids strictly ascending: the order `order_by(Question.id)` yields, and the order the
      store keeps since ids are assigned increasingly. */
  ghost predicate IdsAscending(qs: seq<Question>) {
    forall i, j :: 0 <= i < j < |qs| ==> qs[i].id < qs[j].id
  }

  /** The fields of the POST /questions form; `None` is a field the form does not carry. */
  datatype QuestionForm = QuestionForm(
    question: Option<string>,
    answer: Option<string>,
    difficulty: Option<int>,
    category: Option<string>,
    searchTerm: Option<string>)

  /** What `abort` attaches to the exception: werkzeug's standard text for the code
      (a string), or the dictionary the view passed. */
  datatype Description = Standard | Fields(entries: map<string, string>)

  /** The JSON body of a successful view. */
  datatype Body =
    | CategoryList(categories: seq<Category>)
    | QuestionPage(questions: seq<Question>, totalQuestions: nat,
                   listedCategories: Option<seq<Category>>, currentCategory: Option<string>)
    | Record(record: Question)
    | QuizQuestion(next: Option<Question>)

  /** The outcome of a view: a body, an `abort(code, description)`, or falling off the end
      of the function (the view returns `None`). */
  datatype Response = Ok(body: Body) | Abort(code: int, description: Description) | NoResponse

  /** `abort(400, {'message': m})` */
  function BadRequest(message: string): Response {
    Abort(400, Fields(map["message" := message]))
  }
}
