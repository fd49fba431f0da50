/**
 * Static quiz content: questions, topics and the built-in catalog.
 * Every value here is immutable and constructed once.
 */
module QuizContent {

  /** Stands for a reference that may be `null`. */
  datatype Option<T> = None | Some(value: T)

  /** One multiple-choice question: a prompt, its answer options and
      the position of the right option. */
  datatype Question = Question(text: string, options: seq<string>, correctIndex: int)
  {
    /** Whether the option at `selectedIndex` is the right one.
        No bounds check: callers pass only indices of rendered options. */
    predicate IsCorrect(selectedIndex: int) {
      selectedIndex == correctIndex
    }

    /** The right option is one of the options. */
    predicate Valid() {
      0 <= correctIndex < |options|
    }
  }

  /** A named, ordered list of questions played as one quiz. */
  datatype QuizTopic = QuizTopic(name: string, questions: seq<Question>)
  {
    /** A topic can be played when it has a first question and every
        question names one of its own options as the right one. */
    predicate Valid() {
      |questions| > 0 && forall i :: 0 <= i < |questions| ==> questions[i].Valid()
    }
  }

  /** Every topic of a catalog can be played. */
  predicate CatalogValid(topics: map<string, QuizTopic>) {
    forall key :: key in topics ==> topics[key].Valid()
  }

  /** On a well-formed question exactly one of the rendered options
      is accepted as correct. The first clause spells out which one for
      callers; the second says there is no other. */
  lemma ExactlyOneCorrectOption(q: Question)
    requires q.Valid()
    ensures forall i :: 0 <= i < |q.options| ==> (q.IsCorrect(i) <==> i == q.correctIndex)
    ensures |set i | 0 <= i < |q.options| && q.IsCorrect(i)| == 1
  {
    var accepted := set i | 0 <= i < |q.options| && q.IsCorrect(i);
    assert q.correctIndex in accepted;
    assert accepted == {q.correctIndex};
  }

  /** The catalog the application is started with, keyed by the
      identifier each topic card carries. */
  function QuizData(): map<string, QuizTopic> {
    map[
      "science" := QuizTopic("Science", [
        Question("What planet is known as the Red Planet?", ["Earth", "Mars", "Jupiter", "Venus"], 1),
        Question("What gas do plants absorb?", ["Oxygen", "Carbon Dioxide", "Nitrogen", "Hydrogen"], 1)
      ]),
      "history" := QuizTopic("History", [
        Question("Who was the first president of the USA?", ["Lincoln", "Washington", "Jefferson", "Adams"], 1),
        Question("In which year did World War II end?", ["1942", "1945", "1948", "1950"], 1)
      ]),
      "sports" := QuizTopic("Sports", [
        Question("How many players in a soccer team?", ["9", "10", "11", "12"], 2),
        Question("Which sport uses a puck?", ["Football", "Hockey", "Basketball", "Tennis"], 1)
      ]),
      "movies" := QuizTopic("Movies", [
        Question("Who directed \"Inception\"?", ["Nolan", "Spielberg", "Tarantino", "Cameron"], 0),
        Question("Which movie features a DeLorean time machine?", ["Matrix", "Back to the Future", "Avatar", "Titanic"], 1)
      ])
    ]
  }

  /** The catalog has the four topics, each with two questions of four
      options, and every topic can be played. */
  lemma QuizDataWellFormed()
    ensures QuizData().Keys == {"science", "history", "sports", "movies"}
    ensures forall key :: key in QuizData() ==> |QuizData()[key].questions| == 2
    ensures forall key, i :: key in QuizData() && 0 <= i < |QuizData()[key].questions| ==>
      |QuizData()[key].questions[i].options| == 4
    ensures CatalogValid(QuizData())
  {
  }
}
