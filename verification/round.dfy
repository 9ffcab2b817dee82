/**
 * One round of the trainer (trainer.js): `render` samples tasks and builds a
 * card per task, `startTimer` replaces the countdown, each tick of the
 * interval counts down and submits at zero, and `checkAnswers` grades every
 * card once per round.
 *
 * The page is a `Trainer` object. Its fields are the `state` record
 * (`tasks`, `timerId`, `isFinished`), the countdown variable of the current
 * interval (`timeLeft`), and the parts of the page that these functions
 * write: whether the check and re-roll buttons are enabled, whether the
 * results panel is visible and the score it shows. The title, subtitle,
 * timer and score texts are functions of those fields. The browser's intervals are the set `liveTimers` of handles
 * that still fire; a tick is a call of `Tick`, made only while the current
 * interval is live. `isAnswerCorrect` and `task.generate` belong to the
 * topic module and are parameters.
 */
module Round {
  import opened Common
  import opened Topic
  import opened Text
  import TimeFormat
  import Sampler

  /** The feedback line under a card: empty, "Верно!", or "Неверно" with the right answer. */
  datatype Feedback = Blank | Right | Wrong(correctAnswerText: string)

  /** The record `createTaskCard` returns, with the input box's text and the feedback shown. */
  datatype TaskCard<T, V> = TaskCard(originalTask: T, generatedTask: Generated<V>, input: string, feedback: Feedback)

  /** `createTaskCard(task)`: a freshly generated instance with an empty input and no feedback. */
  function NewCard<T, V>(task: T, generate: T -> Generated<V>): TaskCard<T, V> {
    TaskCard(task, generate(task), "", Blank)
  }

  /** The cards `render` pushes, one per picked task, in order. */
  function NewCards<T, V>(picked: seq<T>, generate: T -> Generated<V>): (r: seq<TaskCard<T, V>>)
    ensures |r| == |picked|
  {
    if picked == [] then [] else NewCards(picked[..|picked| - 1], generate) + [NewCard(picked[|picked| - 1], generate)]
  }

  /** Card i is for picked task i, freshly generated, with an empty input and no feedback. */
  lemma {:induction false} NewCardsSpec<T, V>(picked: seq<T>, generate: T -> Generated<V>)
    ensures var r := NewCards(picked, generate);
      forall i | 0 <= i < |r| :: r[i].originalTask == picked[i] && r[i].input == "" && r[i].feedback == Blank
        && r[i].generatedTask == generate(picked[i])
  {
    if picked != [] {
      NewCardsSpec(picked[..|picked| - 1], generate);
    }
  }

  /** What `isAnswerCorrect` says of a card's trimmed input. */
  function VerdictOf<T, V>(card: TaskCard<T, V>, isAnswerCorrect: (string, T, V) -> Verdict): Verdict {
    isAnswerCorrect(Trim(card.input), card.originalTask, card.generatedTask.variables)
  }

  /** The card with the feedback `checkAnswers` writes under it. */
  function Grade<T, V>(card: TaskCard<T, V>, isAnswerCorrect: (string, T, V) -> Verdict): TaskCard<T, V> {
    var v := VerdictOf(card, isAnswerCorrect);
    card.(feedback := if v.correct then Right else Wrong(v.correctAnswerText))
  }

  /** Every card graded; nothing but the feedback changes. */
  function GradeAll<T, V>(cards: seq<TaskCard<T, V>>, isAnswerCorrect: (string, T, V) -> Verdict)
    : (r: seq<TaskCard<T, V>>)
    ensures |r| == |cards|
  {
    if cards == [] then []
    else GradeAll(cards[..|cards| - 1], isAnswerCorrect) + [Grade(cards[|cards| - 1], isAnswerCorrect)]
  }

  /** Card i of the graded list is card i graded. */
  lemma {:induction false} GradeAllSpec<T, V>(cards: seq<TaskCard<T, V>>, isAnswerCorrect: (string, T, V) -> Verdict)
    ensures var r := GradeAll(cards, isAnswerCorrect);
      forall i | 0 <= i < |r| :: r[i] == Grade(cards[i], isAnswerCorrect)
  {
    if cards != [] {
      GradeAllSpec(cards[..|cards| - 1], isAnswerCorrect);
    }
  }

  /** Grading changes nothing but the feedback, which follows the verdict on the trimmed input. */
  lemma {:induction false} GradeKeepsCards<T, V>(cards: seq<TaskCard<T, V>>, isAnswerCorrect: (string, T, V) -> Verdict)
    ensures var r := GradeAll(cards, isAnswerCorrect);
      forall i | 0 <= i < |r| ::
        && r[i].originalTask == cards[i].originalTask && r[i].generatedTask == cards[i].generatedTask
        && r[i].input == cards[i].input
        && (r[i].feedback == Right <==> VerdictOf(cards[i], isAnswerCorrect).correct)
  {
    GradeAllSpec(cards, isAnswerCorrect);
  }

  /** `correctCount` after the loop of `checkAnswers`. */
  function CountCorrect<T, V>(cards: seq<TaskCard<T, V>>, isAnswerCorrect: (string, T, V) -> Verdict): (n: nat)
    ensures n <= |cards|
  {
    if cards == [] then 0
    else
      var last := if VerdictOf(cards[|cards| - 1], isAnswerCorrect).correct then 1 else 0;
      CountCorrect(cards[..|cards| - 1], isAnswerCorrect) + last
  }

  /** Counting one card further adds one exactly when that card is judged correct. */
  lemma {:induction false} CountCorrectStep<T, V>(cards: seq<TaskCard<T, V>>, i: nat, isAnswerCorrect: (string, T, V) -> Verdict)
    requires i < |cards|
    ensures CountCorrect(cards[..i + 1], isAnswerCorrect)
      == CountCorrect(cards[..i], isAnswerCorrect) + if VerdictOf(cards[i], isAnswerCorrect).correct then 1 else 0
  {
    assert cards[..i + 1][..i] == cards[..i];
  }

  /**
   * The loop of `checkAnswers` over the cards: each card gets the feedback
   * for its trimmed input, and `correctCount` counts the accepted ones.
   */
  method GradeCards<T, V>(before: seq<TaskCard<T, V>>, isAnswerCorrect: (string, T, V) -> Verdict)
    returns (cards: seq<TaskCard<T, V>>, correctCount: nat)
    ensures cards == GradeAll(before, isAnswerCorrect)
    ensures correctCount == CountCorrect(before, isAnswerCorrect)
  {
    cards := before;
    correctCount := 0;
    var i := 0;
    while i < |cards|
      invariant 0 <= i <= |cards| == |before|
      invariant forall j | 0 <= j < i :: cards[j] == Grade(before[j], isAnswerCorrect)
      invariant forall j | i <= j < |cards| :: cards[j] == before[j]
      invariant correctCount == CountCorrect(before[..i], isAnswerCorrect)
    {
      var card := cards[i];
      CountCorrectStep(before, i, isAnswerCorrect);
      var userAnswer := Trim(card.input);
      var verdict := isAnswerCorrect(userAnswer, card.originalTask, card.generatedTask.variables);
      if verdict.correct {
        correctCount := correctCount + 1;
        cards := cards[i := card.(feedback := Right)];
      } else {
        cards := cards[i := card.(feedback := Wrong(verdict.correctAnswerText))];
      }
      i := i + 1;
    }
    assert before[..i] == before;
    GradeAllSpec(before, isAnswerCorrect);
  }

  /** The positions of the cards the topic's predicate accepts. */
  ghost function CorrectPositions<T, V>(cards: seq<TaskCard<T, V>>, isAnswerCorrect: (string, T, V) -> Verdict)
    : set<nat>
  {
    set i: nat | i < |cards| && VerdictOf(cards[i], isAnswerCorrect).correct
  }

  /** The accepted positions of a longer list: those of its prefix, and the last one if it is accepted. */
  lemma {:induction false} CorrectPositionsStep<T, V>(
    cards: seq<TaskCard<T, V>>, isAnswerCorrect: (string, T, V) -> Verdict)
    requires cards != []
    ensures var last := |cards| - 1;
      CorrectPositions(cards, isAnswerCorrect)
      == CorrectPositions(cards[..last], isAnswerCorrect)
         + if VerdictOf(cards[last], isAnswerCorrect).correct then {last} else {}
  {
    var last := |cards| - 1;
    var init := cards[..last];
    forall i: nat | i < last ensures init[i] == cards[i] {
    }
  }

  /** The score is the number of cards judged correct. */
  lemma {:induction false} CountCorrectIsCardinality<T, V>(
    cards: seq<TaskCard<T, V>>, isAnswerCorrect: (string, T, V) -> Verdict)
    ensures CountCorrect(cards, isAnswerCorrect) == |CorrectPositions(cards, isAnswerCorrect)|
  {
    if cards != [] {
      var last := |cards| - 1;
      CountCorrectIsCardinality(cards[..last], isAnswerCorrect);
      CorrectPositionsStep(cards, isAnswerCorrect);
      assert last !in CorrectPositions(cards[..last], isAnswerCorrect);
    }
  }

  /** The score line `Результат: ${correctCount} из ${state.tasks.length}`. */
  function ScoreText(correct: nat, total: nat): string {
    "Результат: " + NatToString(correct) + " из " + NatToString(total)
  }

  /** The score line shows both numbers: different scores never read the same. */
  lemma {:induction false} ScoreTextInjective(c1: nat, n1: nat, c2: nat, n2: nat)
    requires ScoreText(c1, n1) == ScoreText(c2, n2)
    ensures c1 == c2 && n1 == n2
  {
    var prefix := "Результат: ";
    var s1 := NatToString(c1) + " из " + NatToString(n1);
    var s2 := NatToString(c2) + " из " + NatToString(n2);
    assert ScoreText(c1, n1) == prefix + s1 && ScoreText(c2, n2) == prefix + s2;
    assert s1 == ScoreText(c1, n1)[|prefix|..] && s2 == ScoreText(c2, n2)[|prefix|..];
    NatToStringDigits(c1);
    NatToStringDigits(c2);
    NatToStringDigits(n1);
    NatToStringDigits(n2);
    JoinedDigits(NatToString(c1), NatToString(n1), NatToString(c2), NatToString(n2), " из ");
  }

  /** The score line names its two numbers: no other pair prints the same line. */
  lemma {:induction false} ScoreTextDetermines(correct: nat, total: nat)
    ensures forall c: nat, n: nat :: ScoreText(c, n) == ScoreText(correct, total) ==> c == correct && n == total
  {
    forall c: nat, n: nat | ScoreText(c, n) == ScoreText(correct, total) ensures c == correct && n == total {
      ScoreTextInjective(c, n, correct, total);
    }
  }

  class Trainer<T(==), V> {
    /** `trainerSettings`, fixed for the page's life. */
    const settings: Settings

    /** The countdown variable of the current interval. */
    var timeLeft: int
    /** `state.timerId`; it keeps its value after `clearInterval`. */
    var timerId: Option<nat>
    /** The intervals that still fire. */
    var liveTimers: set<nat>
    /** The handle the next `setInterval` returns; handles are positive. */
    var nextTimerId: nat
    /** `state.isFinished`. */
    var isFinished: bool
    var checkEnabled: bool
    var rerollEnabled: bool
    var resultsVisible: bool
    /** `state.tasks`. */
    var tasks: seq<TaskCard<T, V>>
    /** The `correctCount` last written into the results panel. */
    var score: nat
    /** How many times `checkAnswers` has scored since the round started. */
    ghost var scoringPasses: nat

    /** The title `render` writes; settings never change, so neither does it. */
    function TitleText(): (r: string)
      ensures r != "" && (r == "Тренажёр" || settings.title == Some(r))
    {
      TextOr(settings.title, "Тренажёр")
    }

    /** The subtitle `render` writes. */
    function SubtitleText(): (r: string)
      ensures r == "" || settings.subtitle == Some(r)
    {
      TextOr(settings.subtitle, "")
    }

    /** The timer element: every write to it is `formatTime` of the current countdown value. */
    function TimerText(): (r: string)
      reads this
      ensures timeLeft >= 0 ==> TimeFormat.ParseTime(r) == Some(timeLeft as nat)
    {
      if timeLeft >= 0 then
        TimeFormat.FormatTimeRoundTrip(timeLeft);
        TimeFormat.FormatTime(timeLeft)
      else TimeFormat.FormatTime(timeLeft)
    }

    /** The score line of the results panel, while the panel is visible. */
    function ResultText(): (r: string)
      reads this
      ensures forall c: nat, n: nat :: ScoreText(c, n) == r ==> c == score && n == |tasks|
    {
      ScoreTextDetermines(score, |tasks|);
      ScoreText(score, |tasks|)
    }

    /** At most one interval fires, and it is the one `state.timerId` holds. */
    ghost predicate TimersValid()
      reads this
    {
      && 0 < nextTimerId
      && match timerId
         case None => liveTimers == {}
         case Some(id) => 0 < id < nextTimerId && liveTimers <= {id}
    }

    /**
     * The round invariant: one timer at most; the check button is enabled
     * and the results hidden exactly until the round is scored; and a round
     * is scored at most once.
     */
    ghost predicate Valid()
      reads this
    {
      && TimersValid()
      && checkEnabled == !isFinished
      && resultsVisible == isFinished
      && scoringPasses == (if isFinished then 1 else 0)
      && (isFinished ==> score <= |tasks|)
    }

    /** The current interval still fires. */
    predicate TimerRunning()
      reads this
    {
      timerId.Some? && timerId.value in liveTimers
    }

    /** Never two intervals at once. */
    lemma {:induction false} AtMostOneTimer()
      requires TimersValid()
      ensures |liveTimers| <= 1
    {
      if timerId.Some? {
        var id := timerId.value;
        assert liveTimers == {} || liveTimers == {id};
      }
    }

    /** The page right after `render` drew `picked` and started interval `id`. */
    ghost predicate RoundStarted(id: nat, picked: seq<T>, generate: T -> Generated<V>)
      reads this
    {
      && !resultsVisible && checkEnabled && rerollEnabled
      && tasks == NewCards(picked, generate)
      && !isFinished && scoringPasses == 0
      && timeLeft == NumberOr(settings.totalTime, 600)
      && timerId == Some(id) && liveTimers == {id} && nextTimerId == id + 1
    }

    /** The page right after `checkAnswers` graded the cards `before`. */
    ghost predicate Scored(before: seq<TaskCard<T, V>>, isAnswerCorrect: (string, T, V) -> Verdict)
      reads this
    {
      && isFinished && !checkEnabled && resultsVisible
      && tasks == GradeAll(before, isAnswerCorrect)
      && score == CountCorrect(before, isAnswerCorrect)
    }

    /**
     * `initializeTrainer` once the topic module is loaded: the empty `state`,
     * then the first `render()` with the tasks `pickTasks()` returns for the
     * randomness `picks` and `draw`.
     */
    constructor (
      settings: Settings, allTasks: seq<T>, kind: T -> string,
      picks: seq<nat>, draw: nat -> real, generate: T -> Generated<V>)
      requires forall i :: 0.0 <= draw(i) < 1.0
      ensures Valid() && this.settings == settings && score == 0
      ensures RoundStarted(1, Sampler.PickTasks(allTasks, kind, settings.problemsToSelect, picks, draw), generate)
    {
      this.settings := settings;
      timeLeft, timerId, liveTimers, nextTimerId := 0, None, {}, 1;
      isFinished, checkEnabled, rerollEnabled, resultsVisible := false, true, true, false;
      tasks, score, scoringPasses := [], 0, 0;
      new;
      Render(Sampler.PickTasks(allTasks, kind, settings.problemsToSelect, picks, draw), generate);
    }

    /**
     * `startTimer()`: clear the running interval, if any, before starting the
     * new one, so that exactly one fires afterwards; reopen the round; restart
     * the countdown from `totalTime || 600`.
     */
    method StartTimer()
      requires TimersValid()
      modifies this`liveTimers, this`timerId, this`nextTimerId, this`isFinished, this`scoringPasses, this`timeLeft
      ensures TimersValid()
      ensures timerId == Some(old(nextTimerId)) && liveTimers == {old(nextTimerId)}
      ensures nextTimerId == old(nextTimerId) + 1
      ensures old(timerId).Some? ==> old(timerId).value !in liveTimers
      ensures !isFinished && scoringPasses == 0
      ensures timeLeft == NumberOr(settings.totalTime, 600)
    {
      if timerId.Some? {
        liveTimers := liveTimers - {timerId.value};
      }
      isFinished, scoringPasses, timeLeft := false, 0, NumberOr(settings.totalTime, 600);
      timerId, liveTimers, nextTimerId := Some(nextTimerId), liveTimers + {nextTimerId}, nextTimerId + 1;
    }

    /**
     * `render()` once `pickTasks()` has returned `picked`: hide the results,
     * enable both buttons, replace `state.tasks` by one new card per picked
     * task, in order, then `startTimer()`. The last score stays in the hidden
     * results panel.
     */
    method Render(picked: seq<T>, generate: T -> Generated<V>)
      requires Valid()
      modifies this`resultsVisible, this`checkEnabled, this`rerollEnabled, this`tasks,
        this`liveTimers, this`timerId, this`nextTimerId, this`isFinished, this`scoringPasses, this`timeLeft
      ensures Valid()
      ensures RoundStarted(old(nextTimerId), picked, generate)
      ensures score == old(score)
    {
      resultsVisible, checkEnabled, rerollEnabled, tasks := false, true, true, [];
      for j := 0 to |picked|
        modifies this`tasks
        invariant tasks == NewCards(picked[..j], generate)
      {
        assert picked[..j + 1][..j] == picked[..j];
        tasks := tasks + [NewCard(picked[j], generate)];
      }
      assert picked[..|picked|] == picked;
      StartTimer();
    }

    /**
     * `checkAnswers()`. Once the round is finished it does nothing, so a
     * manual check and the timer's expiry score once between them. Otherwise
     * it finishes the round, disables the check button, grades every card's
     * trimmed input, counts the correct ones and shows the results panel.
     */
    method Check(isAnswerCorrect: (string, T, V) -> Verdict)
      requires Valid()
      modifies this`isFinished, this`scoringPasses, this`checkEnabled, this`tasks, this`score, this`resultsVisible
      ensures Valid()
      ensures old(isFinished) ==> unchanged(this)
      ensures !old(isFinished) ==> Scored(old(tasks), isAnswerCorrect) && scoringPasses == 1
      ensures !old(isFinished) ==> ResultText() == ScoreText(CountCorrect(old(tasks), isAnswerCorrect), |old(tasks)|)
    {
      if isFinished {
        return;
      }
      isFinished, scoringPasses, checkEnabled := true, scoringPasses + 1, false;
      var cards, correctCount := GradeCards(tasks, isAnswerCorrect);
      tasks, resultsVisible, score := cards, true, correctCount;
    }

    /**
     * One firing of the interval. If the round is already finished it only
     * clears the interval. Otherwise it counts down by one second (the timer
     * text follows), and at zero or below clears the interval and runs
     * `checkAnswers()`.
     */
    method Tick(isAnswerCorrect: (string, T, V) -> Verdict)
      requires Valid() && TimerRunning()
      modifies this`timeLeft, this`liveTimers,
        this`isFinished, this`scoringPasses, this`checkEnabled, this`tasks, this`score, this`resultsVisible
      ensures Valid()
      ensures old(isFinished) ==>
        && liveTimers == {} && timeLeft == old(timeLeft)
        && isFinished && scoringPasses == 1 && tasks == old(tasks) && score == old(score)
      ensures !old(isFinished) ==> timeLeft == old(timeLeft) - 1
      ensures !old(isFinished) && timeLeft > 0 ==>
        && liveTimers == old(liveTimers) && TimerRunning()
        && !isFinished && tasks == old(tasks) && score == old(score)
      ensures !old(isFinished) && timeLeft <= 0 ==>
        liveTimers == {} && Scored(old(tasks), isAnswerCorrect) && scoringPasses == 1
    {
      if isFinished {
        liveTimers := liveTimers - {timerId.value};
        return;
      }
      timeLeft := timeLeft - 1;
      if timeLeft <= 0 {
        liveTimers := liveTimers - {timerId.value};
        Check(isAnswerCorrect);
      }
    }

    /** The user types `text` into the input box of card `i`. */
    method TypeAnswer(i: nat, text: string)
      requires Valid() && i < |tasks|
      modifies this`tasks
      ensures Valid()
      ensures tasks == old(tasks)[i := old(tasks)[i].(input := text)]
    {
      tasks := tasks[i := tasks[i].(input := text)];
    }
  }

  /**
   * A running round left alone: it is scored by the tick that brings the
   * countdown to zero or below, which is the `timeLeft`-th tick, or the
   * first tick when the countdown started at zero or below (a negative
   * `totalTime`), and a manual check after that changes nothing.
   */
  method RunOut<T(==), V>(t: Trainer<T, V>, isAnswerCorrect: (string, T, V) -> Verdict) returns (ticks: nat)
    requires t.Valid() && t.TimerRunning() && !t.isFinished
    modifies t
    ensures ticks == if old(t.timeLeft) > 0 then old(t.timeLeft) else 1
    ensures t.Scored(old(t.tasks), isAnswerCorrect) && t.scoringPasses == 1 && !t.TimerRunning()
  {
    ticks := 0;
    while !t.isFinished
      invariant t.Valid()
      invariant !t.isFinished ==>
        && t.TimerRunning() && t.timeLeft == old(t.timeLeft) - ticks && t.tasks == old(t.tasks)
        && (ticks == 0 || t.timeLeft > 0)
      invariant t.isFinished ==>
        && ticks == (if old(t.timeLeft) > 0 then old(t.timeLeft) else 1)
        && t.Scored(old(t.tasks), isAnswerCorrect) && !t.TimerRunning()
      decreases if t.isFinished then 0 else if t.timeLeft > 0 then t.timeLeft + 1 else 1
    {
      t.Tick(isAnswerCorrect);
      ticks := ticks + 1;
    }
    t.Check(isAnswerCorrect);
  }

  /**
   * A manual check, then the interval's next firing: the tick clears the
   * interval and leaves the score as the check set it.
   */
  method CheckThenTickScenario<T(==), V>(
    allTasks: seq<T>, kind: T -> string, generate: T -> Generated<V>, isAnswerCorrect: (string, T, V) -> Verdict,
    settings: Settings)
    returns (scoreAtCheck: nat, scoreAfterTick: nat, timerStopped: bool)
    ensures scoreAtCheck == scoreAfterTick && timerStopped
  {
    var t := new Trainer(settings, allTasks, kind, [], _ => 0.0, generate);
    t.Check(isAnswerCorrect);
    scoreAtCheck := t.score;
    t.Tick(isAnswerCorrect);
    scoreAfterTick, timerStopped := t.score, !t.TimerRunning();
  }
}
