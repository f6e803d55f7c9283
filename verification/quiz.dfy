/** The yes/no quiz of the web identifier: eight questions, each answer is
    scored against the question's expected answer and recorded as a one-hot
    pair, and after the last answer the whole history is sent to the
    classifier, whose reply is shown. The request is a parameter: the reply
    string stands for whatever the server answers. */
module Quiz {
  import opened Wrappers

  /** A quiz question; only its expected answer matters to the logic. */
  datatype Question = Question(correctAnswer: bool)

  /** The eight questions, in order: smooth carapace, antenna, maxillipeds,
      chelipeds, carapace outline, telson plates, pleopods, habitat. */
  const Questions: seq<Question> := [
    Question(false), Question(true), Question(true), Question(false),
    Question(true), Question(true), Question(false), Question(false)]

  /** The sixteen trait columns the classifier was trained on, two per
      question. */
  const FeatureColumns: seq<string> := [
    "superficie_lisa", "superficie_irregular", "antena_lisa", "antena_aserrado",
    "maxilipedos_lisos", "maxilipedos_con_surcos", "quelipedos_desiguales", "quelipedos_iguales",
    "caparazon_cuadrado", "caparazon_rectangular", "telson_siete", "telson_cinco",
    "si_pleopodo", "no_pleopodo", "habitats_protegidos", "habitats_expuestos"]

  /** The quiz's React state. */
  datatype QuizState = QuizState(
    current: nat,
    score: nat,
    showResults: bool,
    answers: seq<bool>,
    quizStarted: bool,
    history: seq<int>,
    apiResult: Option<string>)

  const Initial := QuizState(0, 0, false, [], false, [], None)

  // ---------------------------------------------------------------------------
  // Reference definitions

  function Bit(b: bool): int {
    if b then 1 else 0
  }

  /** The pair recorded for one answer: [1, 0] for yes, [0, 1] for no. */
  function OneHot(answer: bool): seq<int> {
    [Bit(answer), 1 - Bit(answer)]
  }

  /** The history recorded for a run of answers. */
  function Encode(answers: seq<bool>): (h: seq<int>)
    ensures |h| == 2 * |answers|
    decreases |answers|
  {
    if answers == [] then []
    else
      var n := |answers| - 1;
      Encode(answers[..n]) + OneHot(answers[n])
  }

  /** Each answer owns two consecutive cells of the history: 1 then 0 for
      yes, 0 then 1 for no, so every pair sums to 1. */
  lemma {:induction false} EncodePairs(answers: seq<bool>, i: nat)
    requires i < |answers|
    ensures Encode(answers)[2 * i] == Bit(answers[i])
    ensures Encode(answers)[2 * i + 1] == 1 - Bit(answers[i])
    ensures Encode(answers)[2 * i] + Encode(answers)[2 * i + 1] == 1
    decreases |answers|
  {
    var n := |answers| - 1;
    var front := Encode(answers[..n]);
    assert Encode(answers) == front + OneHot(answers[n]);
    if i < n {
      EncodePairs(answers[..n], i);
      assert answers[..n][i] == answers[i];
    } else {
      assert 2 * i == |front|;
    }
  }

  /** Different answer runs are recorded as different histories: the
      answers can be read back from the history. */
  lemma EncodeInjective(a: seq<bool>, b: seq<bool>)
    requires Encode(a) == Encode(b)
    ensures a == b
  {
    assert |a| == |b|;
    forall i | 0 <= i < |a| ensures a[i] == b[i] {
      EncodePairs(a, i);
      EncodePairs(b, i);
    }
  }

  /** The number of answers equal to their question's expected answer. */
  function Correct(answers: seq<bool>, qs: seq<Question>): (c: nat)
    requires |answers| <= |qs|
    ensures c <= |answers|
    decreases |answers|
  {
    if answers == [] then 0
    else
      var n := |answers| - 1;
      Correct(answers[..n], qs) + (if answers[n] == qs[n].correctAnswer then 1 else 0)
  }

  /** The score is full exactly when every answer is right. */
  lemma {:induction false} CorrectFull(answers: seq<bool>, qs: seq<Question>)
    requires |answers| <= |qs|
    ensures Correct(answers, qs) == |answers| <==> forall i | 0 <= i < |answers| :: answers[i] == qs[i].correctAnswer
    decreases |answers|
  {
    if answers != [] {
      var n := |answers| - 1;
      CorrectFull(answers[..n], qs);
      assert forall i | 0 <= i < n :: answers[..n][i] == answers[i];
    }
  }

  /** What the state must satisfy while the quiz runs or shows its results:
      one recorded answer per question passed, the history is their
      encoding, the score their number of correct ones, and the results
      appear only once the last question is answered. */
  predicate Valid(st: QuizState, qs: seq<Question>) {
    |qs| > 0 && st.current < |qs|
    && |st.answers| == st.current + (if st.showResults then 1 else 0)
    && (st.showResults ==> st.current == |qs| - 1)
    && st.history == Encode(st.answers)
    && st.score == Correct(st.answers, qs)
  }

  // ---------------------------------------------------------------------------
  // Transitions

  /** `handleAnswer`: scores the answer, records it, and either moves to the
      next question or sends the history and shows the reply. The second
      component is the history sent, if any. */
  function Answer(st: QuizState, qs: seq<Question>, answer: bool, reply: string): (r: (QuizState, Option<seq<int>>))
    requires Valid(st, qs) && !st.showResults
    ensures Valid(r.0, qs)
    ensures r.0.answers == st.answers + [answer]
    ensures r.0.score == st.score + (if answer == qs[st.current].correctAnswer then 1 else 0)
    ensures r.0.history == st.history + OneHot(answer)
    ensures r.1.Some? <==> st.current + 1 == |qs|
    ensures r.1.Some? ==> r.1.value == r.0.history && r.0.showResults && r.0.apiResult == Some(reply)
    ensures r.1.None? ==> r.0.current == st.current + 1 && !r.0.showResults && r.0.apiResult == st.apiResult
    ensures r.0.quizStarted == st.quizStarted
  {
    var isCorrect := answer == qs[st.current].correctAnswer;
    var score := if isCorrect then st.score + 1 else st.score;
    var history := st.history + OneHot(answer);
    var answers := st.answers + [answer];
    assert answers[..|answers| - 1] == st.answers;
    assert history == Encode(answers);
    assert score == Correct(answers, qs);
    if st.current + 1 < |qs| then
      (st.(current := st.current + 1, score := score, answers := answers, history := history), None)
    else
      (st.(score := score, answers := answers, history := history, apiResult := Some(reply), showResults := true),
       Some(history))
  }

  /** `resetQuiz`: back to the first question with nothing recorded; the
      last reply is kept. */
  function Reset(st: QuizState): (r: QuizState)
    ensures r == Initial.(apiResult := st.apiResult)
  {
    st.(current := 0, score := 0, showResults := false, answers := [], history := [], quizStarted := false)
  }

  /** The start button. */
  function Start(st: QuizState): QuizState {
    st.(quizStarted := true)
  }

  /** Resetting gives a valid, fresh quiz, however far the last one went,
      and keeps the previous reply until the next quiz ends. */
  lemma ResetIsFresh(st: QuizState, qs: seq<Question>)
    requires |qs| > 0
    ensures Valid(Reset(st), qs) && !Reset(st).showResults
    ensures Reset(st).answers == [] && Reset(st).score == 0 && Reset(st).history == []
    ensures Reset(st).apiResult == st.apiResult
    ensures Reset(Reset(st)) == Reset(st)
  {
  }

  /** The state after answering `answers` from a fresh start, and the
      history sent by the last of them, if any. */
  function Play(qs: seq<Question>, answers: seq<bool>, reply: string): (r: (QuizState, Option<seq<int>>))
    requires |qs| > 0 && |answers| <= |qs|
    ensures Valid(r.0, qs)
    ensures r.0.answers == answers
    ensures r.0.showResults <==> |answers| == |qs|
    ensures r.1.Some? <==> |answers| == |qs|
    ensures r.1.Some? ==> r.1.value == Encode(answers)
    decreases |answers|
  {
    if answers == [] then (Initial, None)
    else
      var n := |answers| - 1;
      var before := Play(qs, answers[..n], reply);
      assert answers[..n] + [answers[n]] == answers;
      Answer(before.0, qs, answers[n], reply)
  }

  /** The score never exceeds the answers given, and equals their number
      exactly when every answer was right. */
  lemma ScoreBound(qs: seq<Question>, answers: seq<bool>, reply: string)
    requires |qs| > 0 && |answers| <= |qs|
    ensures Play(qs, answers, reply).0.score <= |answers|
    ensures Play(qs, answers, reply).0.score == |answers| <==>
      forall i | 0 <= i < |answers| :: answers[i] == qs[i].correctAnswer
  {
    CorrectFull(answers, qs);
  }

  /** A full quiz sends sixteen values, one per trait column, each question
      contributing a pair that sums to 1. */
  lemma FullQuizFillsColumns(answers: seq<bool>, reply: string)
    requires |answers| == |Questions|
    ensures Play(Questions, answers, reply).1.Some?
    ensures |Play(Questions, answers, reply).1.value| == |FeatureColumns| == 16
    ensures Play(Questions, answers, reply).0.apiResult == Some(reply)
  {
    var before := Play(Questions, answers[..|answers| - 1], reply);
    assert answers[..|answers| - 1] + [answers[|answers| - 1]] == answers;
  }
}
