/**
 * The quiz session as a value, and each transition of the quiz
 * controller as a function on it. The controller class in
 * QuizController is proved to compute exactly these functions; the
 * lemmas at the end relate several transitions.
 */
module QuizMachine {
  import opened QuizContent

  /** Which of the three screens is visible. */
  datatype Screen = Home | QuizScreen | ResultScreen

  /** The feedback class an answer button carries. */
  datatype Mark = Unmarked | MarkedCorrect | MarkedIncorrect

  /** One rendered answer option. */
  datatype AnswerButton = AnswerButton(text: string, mark: Mark, disabled: bool)

  /** What the quiz screen shows besides the buttons: the prompt,
      "Question <position> of <total>" and "Score: <score>". */
  datatype QuestionView = QuestionView(text: string, position: int, total: int, score: int)

  /** What the result screen shows: "You scored <score> out of <total>"
      and "<percent>%". */
  datatype ResultView = ResultView(score: int, total: int, percent: int)

  /** The whole observable state of the controller. `answered` stands for
      "every answer button is disabled"; the two views are `None` until
      first rendered. */
  datatype Session = Session(
    topic: Option<QuizTopic>,
    index: int,
    score: int,
    screen: Screen,
    buttons: seq<AnswerButton>,
    answered: bool,
    questionView: Option<QuestionView>,
    resultView: Option<ResultView>)

  /** The state right after construction: no topic, home screen shown. */
  function Initial(): Session {
    Session(None, 0, 0, Home, [], false, None, None)
  }

  /** `score / total * 100` rounded half up, in integer arithmetic. */
  function Percent(score: int, total: int): (p: int)
    requires total > 0
    ensures 2 * total * p <= 200 * score + total < 2 * total * (p + 1)
    ensures 0 <= score <= total ==> 0 <= p <= 100
    ensures score == total ==> p == 100
  {
    var p := (200 * score + total) / (2 * total);
    PercentBounds(score, total, p);
    p
  }

  /** Multiplying by a non-negative factor keeps the order. */
  lemma MulMonotone(c: int, x: int, y: int)
    requires c >= 0
    ensures x <= y ==> c * x <= c * y
  {
    assert c * y == c * x + c * (y - x);
  }

  lemma PercentBounds(score: int, total: int, p: int)
    requires total > 0
    requires 2 * total * p <= 200 * score + total < 2 * total * (p + 1)
    ensures 0 <= score <= total ==> 0 <= p <= 100
    ensures score == total ==> p == 100
  {
    var c := 2 * total;
    MulMonotone(c, p + 1, 0);
    MulMonotone(c, 101, p);
    MulMonotone(c, p + 1, 100);
  }

  /** Rounding half up has exactly one result: any integer within half a
      unit (halves going up) of `100 * score / total` is `Percent`. */
  lemma PercentIsRounding(score: int, total: int, p: int)
    requires total > 0
    requires 2 * total * p <= 200 * score + total < 2 * total * (p + 1)
    ensures p == Percent(score, total)
  {
    var q := Percent(score, total);
    MulMonotone(2 * total, p + 1, q);
    MulMonotone(2 * total, q + 1, p);
  }

  /** No right answers give 0%. */
  lemma PercentOfZero(total: int)
    requires total > 0
    ensures Percent(0, total) == 0
  {
    PercentIsRounding(0, total, 0);
  }

  /** Sample roundings: 1 of 2, 2 of 2, 0 of 2, 1 of 3. */
  lemma PercentExamples()
    ensures Percent(1, 2) == 50 && Percent(2, 2) == 100
    ensures Percent(0, 2) == 0 && Percent(1, 3) == 33
  {
  }

  /** A topic is selected and the position is one of its questions. */
  predicate HasQuestion(s: Session) {
    s.topic.Some? && 0 <= s.index < |s.topic.value.questions|
  }

  function Total(s: Session): nat
    requires s.topic.Some?
  {
    |s.topic.value.questions|
  }

  function Current(s: Session): Question
    requires HasQuestion(s)
  {
    s.topic.value.questions[s.index]
  }

  /** The quiz screen shows the current question: one button per option,
      in order, and progress `index + 1` of the topic's length. */
  predicate Displays(s: Session)
    requires HasQuestion(s)
  {
    var q := Current(s);
    && |s.buttons| == |q.options|
    && (forall j :: 0 <= j < |s.buttons| ==> s.buttons[j].text == q.options[j])
    && s.questionView == Some(QuestionView(q.text, s.index + 1, Total(s), s.score))
  }

  /** What every reachable state satisfies. */
  predicate Inv(s: Session) {
    && (s.topic.Some? ==> s.topic.value.Valid())
    && (s.screen != Home ==> s.topic.Some?)
    && 0 <= s.index
    && 0 <= s.score
    && (forall j :: 0 <= j < |s.buttons| ==> s.buttons[j].disabled == s.answered)
    && (s.screen == QuizScreen ==> HasQuestion(s) && Displays(s))
    && (s.screen == QuizScreen && !s.answered ==>
          forall j :: 0 <= j < |s.buttons| ==> s.buttons[j].mark == Unmarked)
    && (s.screen == ResultScreen ==>
          && s.index >= Total(s)
          && s.resultView == Some(ResultView(s.score, Total(s), Percent(s.score, Total(s)))))
  }

  lemma InitialInv()
    ensures Inv(Initial())
  {
  }

  /** Fresh, enabled, unmarked buttons for the given options. */
  function FreshButtons(options: seq<string>): seq<AnswerButton> {
    seq(|options|, j requires 0 <= j < |options| => AnswerButton(options[j], Unmarked, false))
  }

  /** Every button, disabled. */
  function DisableAll(buttons: seq<AnswerButton>): seq<AnswerButton> {
    seq(|buttons|, j requires 0 <= j < |buttons| => buttons[j].(disabled := true))
  }

  /** Renders the current question. Nothing but the buttons and the
      question view changes. */
  function LoadQuestion(s: Session): (r: Session)
    requires HasQuestion(s)
    ensures HasQuestion(r) && Displays(r) && !r.answered
    ensures r.topic == s.topic && r.index == s.index && r.score == s.score
    ensures r.screen == s.screen && r.resultView == s.resultView
    ensures forall j :: 0 <= j < |r.buttons| ==> r.buttons[j].mark == Unmarked && !r.buttons[j].disabled
  {
    var q := Current(s);
    s.(buttons := FreshButtons(q.options),
       answered := false,
       questionView := Some(QuestionView(q.text, s.index + 1, Total(s), s.score)))
  }

  /** Selecting a topic: first question of that topic, score zero, quiz
      screen. Valid from every state. */
  function StartQuiz(s: Session, t: QuizTopic): (r: Session)
    requires t.Valid()
    ensures Inv(r)
    ensures r.topic == Some(t) && r.index == 0 && r.score == 0
    ensures r.screen == QuizScreen && !r.answered
    ensures forall j :: 0 <= j < |r.buttons| ==> r.buttons[j].mark == Unmarked
    ensures r.questionView == Some(QuestionView(t.questions[0].text, 1, |t.questions|, 0))
    ensures r.resultView == s.resultView
  {
    LoadQuestion(s.(topic := Some(t), index := 0, score := 0, screen := QuizScreen))
  }

  /** Choosing the option at `selected`. The score, the position, the
      topic and the screen stay as they are whichever option is chosen;
      only the feedback marks change, and every button is disabled. */
  function HandleAnswer(s: Session, selected: int): (r: Session)
    requires Inv(s) && s.screen == QuizScreen && 0 <= selected < |s.buttons|
    ensures Inv(r) && r.answered
    ensures r.topic == s.topic && r.index == s.index && r.score == s.score
    ensures r.screen == s.screen && r.questionView == s.questionView && r.resultView == s.resultView
    ensures |r.buttons| == |s.buttons|
    ensures forall j :: 0 <= j < |r.buttons| ==> r.buttons[j].disabled && r.buttons[j].text == s.buttons[j].text
    ensures Current(s).IsCorrect(selected) ==>
      && r.buttons[selected].mark == MarkedCorrect
      && forall j :: 0 <= j < |r.buttons| && j != selected ==> r.buttons[j].mark == s.buttons[j].mark
    ensures !Current(s).IsCorrect(selected) ==>
      && r.buttons[selected].mark == MarkedIncorrect
      && r.buttons[Current(s).correctIndex].mark == MarkedCorrect
      && forall j :: 0 <= j < |r.buttons| && j != selected && j != Current(s).correctIndex ==>
           r.buttons[j].mark == s.buttons[j].mark
  {
    var q := Current(s);
    assert q.Valid();
    var marked :=
      if q.IsCorrect(selected) then
        s.buttons[selected := s.buttons[selected].(mark := MarkedCorrect)]
      else
        s.buttons[selected := s.buttons[selected].(mark := MarkedIncorrect)]
                 [q.correctIndex := s.buttons[q.correctIndex].(mark := MarkedCorrect)];
    s.(buttons := DisableAll(marked), answered := true)
  }

  /** The result screen with the final score, the topic's length and the
      rounded percentage. Only the quiz screen is hidden, so from the home
      screen two screens would be visible, which the screen tag cannot
      express; that case is excluded. */
  function ShowResults(s: Session): (r: Session)
    requires s.topic.Some? && s.topic.value.Valid() && s.screen != Home
    ensures r.screen == ResultScreen
    ensures r.resultView == Some(ResultView(s.score, Total(s), Percent(s.score, Total(s))))
    ensures r.topic == s.topic && r.index == s.index && r.score == s.score
    ensures r.buttons == s.buttons && r.answered == s.answered && r.questionView == s.questionView
  {
    s.(screen := ResultScreen, resultView := Some(ResultView(s.score, Total(s), Percent(s.score, Total(s)))))
  }

  /** Moving on: the position goes up by exactly one; the next question is
      rendered exactly when there is one, otherwise the results are shown.
      It does not require the current question to have been answered.
      Rendering a question leaves the visible screen as it is; showing the
      results from the home screen would leave two screens visible, which
      the screen tag cannot express, so that one case is excluded. */
  function NextQuestion(s: Session): (r: Session)
    requires Inv(s) && s.topic.Some?
    requires s.screen == Home ==> s.index + 1 < Total(s)
    ensures Inv(r)
    ensures r.index == s.index + 1 && r.topic == s.topic && r.score == s.score
    ensures r.index < Total(s) ==>
      && r.screen == s.screen && !r.answered && HasQuestion(r) && Displays(r)
      && (forall j :: 0 <= j < |r.buttons| ==> r.buttons[j].mark == Unmarked && !r.buttons[j].disabled)
      && r.questionView == Some(QuestionView(Current(r).text, r.index + 1, Total(r), r.score))
      && r.resultView == s.resultView
    ensures r.index >= Total(s) ==>
      && r.screen == ResultScreen
      && r.resultView == Some(ResultView(r.score, Total(r), Percent(r.score, Total(r))))
      && r.buttons == s.buttons && r.answered == s.answered && r.questionView == s.questionView
  {
    var moved := s.(index := s.index + 1);
    if moved.index < Total(moved) then LoadQuestion(moved) else ShowResults(moved)
  }

  /** Playing the same topic again from its first question with score
      zero: the same as selecting that topic anew. */
  function RestartQuiz(s: Session): (r: Session)
    requires Inv(s) && s.screen != Home
    ensures Inv(r)
    ensures r.topic == s.topic && r.index == 0 && r.score == 0 && r.screen == QuizScreen
    ensures r == StartQuiz(s, s.topic.value)
  {
    LoadQuestion(s.(index := 0, score := 0, screen := QuizScreen))
  }

  /** Showing the home screen. Topic, position, score and everything
      rendered stay as they are. */
  function GoHome(s: Session): (r: Session)
    requires Inv(s)
    ensures Inv(r) && r.screen == Home
    ensures r.topic == s.topic && r.index == s.index && r.score == s.score
    ensures r.buttons == s.buttons && r.answered == s.answered
    ensures r.questionView == s.questionView && r.resultView == s.resultView
  {
    s.(screen := Home)
  }

  /** A user action. Topic cards carry catalog keys; answer buttons their
      option index. */
  datatype Event = SelectTopic(key: string) | ClickAnswer(option: int) | ClickNext | ClickRestart | ClickHome

  /** Delivers one user action. A click on an answer, next, restart or
      home button that is disabled, not rendered or on a hidden screen does
      nothing: the answer and next buttons are on the quiz screen, the
      restart and home buttons on the result screen. A topic card is
      accepted on every screen, since the controller starts a quiz from
      any state; an unknown topic key cannot come from a card and is
      ignored. */
  function Dispatch(catalog: map<string, QuizTopic>, s: Session, e: Event): (r: Session)
    requires CatalogValid(catalog) && Inv(s)
    ensures Inv(r)
    ensures s.screen == ResultScreen && e == ClickNext ==> r == s
    ensures s.answered && e.ClickAnswer? ==> r == s
    ensures PositionBounded(s) ==> PositionBounded(r)
  {
    match e
    case SelectTopic(key) =>
      if key in catalog then StartQuiz(s, catalog[key]) else s
    case ClickAnswer(i) =>
      if s.screen == QuizScreen && 0 <= i < |s.buttons| && !s.buttons[i].disabled then HandleAnswer(s, i) else s
    case ClickNext =>
      if s.screen == QuizScreen then NextQuestion(s) else s
    case ClickRestart =>
      if s.screen == ResultScreen then RestartQuiz(s) else s
    case ClickHome =>
      if s.screen == ResultScreen then GoHome(s) else s
  }

  /** Delivers a sequence of user actions in order. Every state it passes
      through satisfies the invariant. */
  function Run(catalog: map<string, QuizTopic>, s: Session, events: seq<Event>): (r: Session)
    requires CatalogValid(catalog) && Inv(s)
    ensures Inv(r)
    decreases |events|
  {
    if events == [] then s else Run(catalog, Dispatch(catalog, s, events[0]), events[1..])
  }

  /** The position never passes the topic's length. */
  predicate PositionBounded(s: Session) {
    s.topic.Some? ==> s.index <= Total(s)
  }

  /** Every sequence of user actions keeps the position within
      `0 .. length`. */
  lemma {:induction false} RunKeepsPositionBounded(catalog: map<string, QuizTopic>, s: Session, events: seq<Event>)
    requires CatalogValid(catalog) && Inv(s) && PositionBounded(s)
    ensures PositionBounded(Run(catalog, s, events))
    decreases |events|
  {
    if events != [] {
      RunKeepsPositionBounded(catalog, Dispatch(catalog, s, events[0]), events[1..]);
    }
  }

  /** After any actions from start-up, with a topic selected,
      `0 <= position <= length` and `0 <= score <= length`. */
  lemma ReachableBounds(catalog: map<string, QuizTopic>, events: seq<Event>)
    requires CatalogValid(catalog)
    ensures var r := Run(catalog, Initial(), events);
      r.topic.Some? ==> 0 <= r.index <= Total(r) && 0 <= r.score <= Total(r)
  {
    InitialInv();
    RunKeepsPositionBounded(catalog, Initial(), events);
    ScoreNeverIncreases(catalog, Initial(), events);
  }

  function Repeat(e: Event, k: nat): seq<Event> {
    seq(k, _ => e)
  }

  /** Once a question has been answered, a second click on any option
      changes nothing. */
  lemma SecondAnswerIgnored(catalog: map<string, QuizTopic>, s: Session, first: int, second: int)
    requires CatalogValid(catalog) && Inv(s)
    requires s.screen == QuizScreen && 0 <= first < |s.buttons| && !s.buttons[first].disabled
    ensures var r := Dispatch(catalog, s, ClickAnswer(first));
      r.score == s.score && r.answered && Dispatch(catalog, r, ClickAnswer(second)) == r
  {
  }

  /** The score is never incremented: an answer leaves it as it is, and
      only topic selection and restart set it, to zero. */
  lemma {:induction false} ScoreNeverIncreases(catalog: map<string, QuizTopic>, s: Session, events: seq<Event>)
    requires CatalogValid(catalog) && Inv(s)
    ensures Run(catalog, s, events).score <= s.score
    decreases |events|
  {
    if events != [] {
      ScoreNeverIncreases(catalog, Dispatch(catalog, s, events[0]), events[1..]);
    }
  }

  /** Every result shown, after any sequence of actions from start-up,
      is 0 out of the topic's length, 0%. */
  lemma EveryResultIsZero(catalog: map<string, QuizTopic>, events: seq<Event>)
    requires CatalogValid(catalog)
    ensures var r := Run(catalog, Initial(), events);
      r.score == 0 && (r.screen == ResultScreen ==> r.resultView == Some(ResultView(0, Total(r), 0)))
  {
    InitialInv();
    ScoreNeverIncreases(catalog, Initial(), events);
    var r := Run(catalog, Initial(), events);
    if r.screen == ResultScreen {
      PercentOfZero(Total(r));
    }
  }

  /** From a question on the quiz screen, `k` clicks on next that do not
      pass the end move the position by `k`; the quiz screen stays until
      the position reaches the topic's length, and then the results show. */
  lemma {:induction false} Advance(catalog: map<string, QuizTopic>, s: Session, k: nat)
    requires CatalogValid(catalog) && Inv(s)
    requires s.screen == QuizScreen && s.index + k <= Total(s)
    ensures var r := Run(catalog, s, Repeat(ClickNext, k));
      && r.topic == s.topic && r.index == s.index + k && r.score == s.score
      && r.screen == (if s.index + k < Total(s) then QuizScreen else ResultScreen)
    decreases k
  {
    if k > 0 {
      var events := Repeat(ClickNext, k);
      assert events[0] == ClickNext;
      assert events[1..] == Repeat(ClickNext, k - 1);
      var s' := Dispatch(catalog, s, ClickNext);
      if s'.screen == QuizScreen {
        Advance(catalog, s', k - 1);
      } else {
        assert k == 1;
      }
    }
  }

  /** Selecting a topic of `n` questions and clicking next `k <= n` times
      shows question `k + 1` when `k < n`, and the result screen only after
      the `n`-th click, with 0 out of `n`, 0%. Further clicks on next are
      ignored there. */
  lemma PlayThrough(catalog: map<string, QuizTopic>, s: Session, key: string, k: nat)
    requires CatalogValid(catalog) && Inv(s)
    requires key in catalog && k <= |catalog[key].questions|
    ensures var n := |catalog[key].questions|;
      var r := Run(catalog, s, [SelectTopic(key)] + Repeat(ClickNext, k));
      && r.topic == Some(catalog[key]) && r.index == k && r.score == 0
      && (k < n ==> r.screen == QuizScreen
                    && r.questionView == Some(QuestionView(catalog[key].questions[k].text, k + 1, n, 0)))
      && (k == n ==> r.screen == ResultScreen && r.resultView == Some(ResultView(0, n, 0))
                     && Dispatch(catalog, r, ClickNext) == r)
  {
    var n := |catalog[key].questions|;
    var events := [SelectTopic(key)] + Repeat(ClickNext, k);
    assert events[0] == SelectTopic(key);
    assert events[1..] == Repeat(ClickNext, k);
    var started := Dispatch(catalog, s, SelectTopic(key));
    assert started == StartQuiz(s, catalog[key]);
    assert Run(catalog, s, events) == Run(catalog, started, Repeat(ClickNext, k));
    Advance(catalog, started, k);
    var r := Run(catalog, started, Repeat(ClickNext, k));
    if k == n {
      PercentOfZero(n);
      assert r.resultView == Some(ResultView(0, n, 0));
    }
  }

  /** Going home from the results and choosing another topic starts that
      topic from its first question with score zero. */
  lemma HomeThenSelect(catalog: map<string, QuizTopic>, s: Session, key: string)
    requires CatalogValid(catalog) && Inv(s)
    requires s.screen == ResultScreen && key in catalog
    ensures var r := Run(catalog, s, [ClickHome, SelectTopic(key)]);
      && r.topic == Some(catalog[key]) && r.index == 0 && r.score == 0 && r.screen == QuizScreen
  {
    var events := [ClickHome, SelectTopic(key)];
    var home := Dispatch(catalog, s, ClickHome);
    assert events[1..] == [SelectTopic(key)];
    assert Run(catalog, s, events) == Run(catalog, home, [SelectTopic(key)]);
    var started := Dispatch(catalog, home, SelectTopic(key));
    assert Run(catalog, home, [SelectTopic(key)]) == Run(catalog, started, []);
  }
}
