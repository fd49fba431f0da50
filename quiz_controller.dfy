/**
 * The quiz controller object. Its fields are the session state the
 * controller updates in place; each method is proved to leave the object
 * in exactly the state the matching function of QuizMachine computes
 * from the state before the call.
 */
module QuizController {
  import opened QuizContent
  import M = QuizMachine

  class QuizApp {
    /** The catalog, keyed by topic identifier. */
    const topics: map<string, QuizTopic>
    var currentTopic: Option<QuizTopic>
    var currentQuestionIndex: int
    var score: int
    /** Which screen is not hidden. */
    var screen: M.Screen
    /** The children of the answer-options container. */
    var buttons: seq<M.AnswerButton>
    /** All answer buttons are disabled. */
    var answered: bool
    var questionView: Option<M.QuestionView>
    var resultView: Option<M.ResultView>

    /** The object's state as a value. */
    ghost function State(): M.Session
      reads this
    {
      M.Session(currentTopic, currentQuestionIndex, score, screen, buttons, answered, questionView, resultView)
    }

    ghost predicate Valid()
      reads this
    {
      CatalogValid(topics) && M.Inv(State())
    }

    constructor (topics: map<string, QuizTopic>)
      requires CatalogValid(topics)
      ensures Valid() && this.topics == topics
      ensures State() == M.Initial()
    {
      this.topics := topics;
      currentTopic := None;
      currentQuestionIndex := 0;
      score := 0;
      screen := M.Home;
      buttons := [];
      answered := false;
      questionView := None;
      resultView := None;
      new;
      M.InitialInv();
    }

    /** Starts the quiz of the topic a card names. */
    method StartQuiz(topicName: string)
      requires Valid() && topicName in topics
      modifies this
      ensures Valid()
      ensures State() == M.StartQuiz(old(State()), topics[topicName])
    {
      currentTopic := Some(topics[topicName]);
      currentQuestionIndex := 0;
      score := 0;
      screen := M.QuizScreen;
      LoadQuestion();
    }

    /** Renders the current question: rebuilds one enabled button per
        option and updates the prompt, progress and score texts. */
    method LoadQuestion()
      requires M.HasQuestion(State())
      modifies this
      ensures State() == M.LoadQuestion(old(State()))
    {
      var question := currentTopic.value.questions[currentQuestionIndex];
      buttons := [];
      var k := 0;
      while k < |question.options|
        modifies this`buttons
        invariant 0 <= k <= |question.options| && |buttons| == k
        invariant forall j :: 0 <= j < k ==> buttons[j] == M.AnswerButton(question.options[j], M.Unmarked, false)
      {
        buttons := buttons + [M.AnswerButton(question.options[k], M.Unmarked, false)];
        k := k + 1;
      }
      assert buttons == M.FreshButtons(question.options);
      answered := false;
      questionView := Some(M.QuestionView(question.text, currentQuestionIndex + 1,
                                          |currentTopic.value.questions|, score));
    }

    /** Handles a click on the answer button at `selectedIndex`: marks the
        feedback and disables every button. The score is left as it is. */
    method HandleAnswer(selectedIndex: int)
      requires Valid() && screen == M.QuizScreen && 0 <= selectedIndex < |buttons|
      modifies this
      ensures Valid()
      ensures State() == M.HandleAnswer(old(State()), selectedIndex)
    {
      var question := currentTopic.value.questions[currentQuestionIndex];
      assert question.Valid();
      var isCorrect := question.IsCorrect(selectedIndex);
      if isCorrect {
        // The score is only read here, never written.
        buttons := buttons[selectedIndex := buttons[selectedIndex].(mark := M.MarkedCorrect)];
      } else {
        buttons := buttons[selectedIndex := buttons[selectedIndex].(mark := M.MarkedIncorrect)];
        buttons := buttons[question.correctIndex := buttons[question.correctIndex].(mark := M.MarkedCorrect)];
      }
      ghost var marked := buttons;
      var k := 0;
      while k < |buttons|
        modifies this`buttons
        invariant 0 <= k <= |buttons| == |marked|
        invariant forall j :: 0 <= j < k ==> buttons[j] == marked[j].(disabled := true)
        invariant forall j :: k <= j < |buttons| ==> buttons[j] == marked[j]
      {
        buttons := buttons[k := buttons[k].(disabled := true)];
        k := k + 1;
      }
      assert buttons == M.DisableAll(marked);
      answered := true;
    }

    /** Moves to the next question, or to the results after the last one. */
    method NextQuestion()
      requires Valid() && currentTopic.Some?
      requires screen == M.Home ==> currentQuestionIndex + 1 < |currentTopic.value.questions|
      modifies this
      ensures Valid()
      ensures State() == M.NextQuestion(old(State()))
    {
      currentQuestionIndex := currentQuestionIndex + 1;
      if currentQuestionIndex < |currentTopic.value.questions| {
        LoadQuestion();
      } else {
        ShowResults();
      }
    }

    /** Shows the result screen with the score and the rounded percentage. */
    method ShowResults()
      requires currentTopic.Some? && currentTopic.value.Valid() && screen != M.Home
      modifies this
      ensures State() == M.ShowResults(old(State()))
    {
      // The quiz screen is hidden and the result screen shown.
      screen := M.ResultScreen;
      var total := |currentTopic.value.questions|;
      var percent := M.Percent(score, total);
      resultView := Some(M.ResultView(score, total, percent));
    }

    /** Plays the current topic again from its first question. */
    method RestartQuiz()
      requires Valid() && screen != M.Home
      modifies this
      ensures Valid()
      ensures State() == M.RestartQuiz(old(State()))
    {
      currentQuestionIndex := 0;
      score := 0;
      screen := M.QuizScreen;
      LoadQuestion();
    }

    /** Shows the home screen; nothing else changes. */
    method GoHome()
      requires Valid()
      modifies this
      ensures Valid()
      ensures State() == M.GoHome(old(State()))
    {
      screen := M.Home;
    }
  }
}
