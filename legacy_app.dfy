/** app.js: the earlier single-file revision of the quiz. Options are shown in authored
    order, answers live in a sparse array, a timed test counts each question down and
    writes -1 on a timeout, and scoring compares with the authored correctAnswer. */
module LegacyApp {

  import opened Wrappers
  import opened Deck
  import opened Utils
  import opened QuestionSession
  import App

  /** The sparse `userAnswers` array's defined positions, as the map reduce visits. */
  function LegacyCorrectCount(qs: seq<Question>, answers: map<int, int>): (c: nat)
    ensures c <= |qs|
  {
    if |qs| == 0 then 0
    else
      var n := |qs| - 1;
      LegacyCorrectCount(qs[..n], answers)
        + (if n in answers && answers[n] == qs[n].correctAnswer then 1 else 0)
  }

  /** The sentinel a timeout writes. */
  const TimeoutAnswer := -1

  /** showResults' thresholds (stricter than the later revision's 80/60/50). */
  function LegacyResultsGrade(percentage: Option<int>): (g: App.Grade)
    ensures g == App.Excellent <==> percentage.Some? && percentage.value >= 90
    ensures g == App.WellDone <==> percentage.Some? && 70 <= percentage.value < 90
    ensures g == App.GoodTry <==> percentage.Some? && 50 <= percentage.value < 70
    ensures g == App.KeepPracticing <==> percentage.None? || percentage.value < 50
  {
    if percentage.Some? && percentage.value >= 90 then App.Excellent
    else if percentage.Some? && percentage.value >= 70 then App.WellDone
    else if percentage.Some? && percentage.value >= 50 then App.GoodTry
    else App.KeepPracticing
  }

  /** The same percentage never earns a better title here than in the later revision,
      and both agree below 60 and from 90 up. */
  lemma LegacyGradeStricter(percentage: Option<int>)
    ensures App.RankOfGrade(LegacyResultsGrade(percentage)) <= App.RankOfGrade(App.ResultsGrade(percentage))
    ensures percentage.None? || percentage.value < 60 || percentage.value >= 90 ==>
      LegacyResultsGrade(percentage) == App.ResultsGrade(percentage)
  {
  }

  datatype LegacyResults = LegacyResults(correctAnswers: nat, totalQuestions: nat, percentage: Option<int>, grade: App.Grade)

  /** showResults: the score, Math.round of its percentage (NaN for an empty test) and
      the title. */
  function ShowResults(qs: seq<Question>, answers: map<int, int>): (r: LegacyResults)
    ensures r.correctAnswers <= r.totalQuestions == |qs|
    ensures r.percentage.Some? <==> |qs| > 0
    ensures r.percentage.Some? ==> 0 <= r.percentage.value <= 100
  {
    var correct := LegacyCorrectCount(qs, answers);
    var percentage := RoundPercent(correct, |qs|);
    assert percentage.Some? ==> 0 <= percentage.value <= 100 by {
      if |qs| > 0 {
        RoundPercentNearest(correct, |qs|);
      }
    }
    LegacyResults(correct, |qs|, percentage, LegacyResultsGrade(percentage))
  }

  /** Recording a timeout where there was no answer never changes the score of a
      question whose authored answer is an option index. */
  lemma {:induction false} TimeoutNeverScores(qs: seq<Question>, answers: map<int, int>, i: int)
    requires i !in answers
    requires 0 <= i < |qs| ==> qs[i].correctAnswer >= 0
    ensures LegacyCorrectCount(qs, answers[i := TimeoutAnswer]) == LegacyCorrectCount(qs, answers)
  {
    if |qs| > 0 {
      var n := |qs| - 1;
      TimeoutNeverScores(qs[..n], answers, i);
    }
  }

  /** A user who picks the same authored options in both revisions gets the same score:
      the sparse answers here hold, for each answered position of the later session,
      the authored index of the option chosen there. */
  lemma {:induction false} LegacyMatchesSession(
    qs: seq<Question>, answers: seq<Option<int>>, memos: seq<Option<ShuffledAnswers>>, legacy: map<int, int>)
    requires |qs| == |answers| == |memos|
    requires AnswersOnMemos(qs, answers, memos)
    requires forall i :: 0 <= i < |qs| ==> (i in legacy <==> answers[i].Some?)
    requires forall i :: 0 <= i < |qs| && answers[i].Some? ==>
      && memos[i].Some? && 0 <= answers[i].value < |memos[i].value.options|
      && legacy[i] == memos[i].value.options[answers[i].value].originalIndex
    ensures LegacyCorrectCount(qs, legacy) == CorrectCount(answers, memos)
  {
    ScoreMapsBack(qs, answers, memos);
    OriginalOrderAgrees(qs, answers, memos, legacy);
  }

  lemma {:induction false} OriginalOrderAgrees(
    qs: seq<Question>, answers: seq<Option<int>>, memos: seq<Option<ShuffledAnswers>>, legacy: map<int, int>)
    requires |qs| == |answers| == |memos|
    requires AnswersOnMemos(qs, answers, memos)
    requires forall i :: 0 <= i < |qs| ==> (i in legacy <==> answers[i].Some?)
    requires forall i :: 0 <= i < |qs| && answers[i].Some? ==>
      && memos[i].Some? && 0 <= answers[i].value < |memos[i].value.options|
      && legacy[i] == memos[i].value.options[answers[i].value].originalIndex
    ensures LegacyCorrectCount(qs, legacy) == OriginalOrderCount(qs, answers, memos)
  {
    if |qs| > 0 {
      var n := |qs| - 1;
      assert AnswersOnMemos(qs[..n], answers[..n], memos[..n]) by {
        forall i | 0 <= i < n
          ensures qs[..n][i] == qs[i] && answers[..n][i] == answers[i] && memos[..n][i] == memos[i]
        {
        }
      }
      OriginalOrderAgrees(qs[..n], answers[..n], memos[..n], legacy);
      if answers[n].Some? {
        MemoKeyMapsBack(qs[n], memos[n].value);
      }
    }
  }

  /** The per-question countdown of a timed test. */
  const LegacyTimePerQuestion := 30

  class LegacyTestLab {
    var currentTestType: Option<App.TestType>
    var currentQuestions: seq<Question>
    var currentQuestionIndex: int
    /** The sparse answer array: position to chosen option, or -1 after a timeout. */
    var userAnswers: map<int, int>
    var testStartTime: Option<int>
    var timePerQuestion: int
    var timeLeft: int
    /** Whether `this.timer` holds an interval handle (is not null). */
    var timer: bool
    /** How many countdown intervals are set and not yet cleared. `this.timer` names at
        most one of them; an interval whose handle was overwritten keeps running. */
    var liveIntervals: nat
    /** What the results screen shows once the test has finished. */
    var results: Option<LegacyResults>

    /** Answers only at positions already reached, the cursor at most one past the last
        question, and a handle only for an interval that is still set. */
    ghost predicate Valid()
      reads this
    {
      && 0 <= currentQuestionIndex <= |currentQuestions|
      && (forall k :: k in userAnswers ==> 0 <= k <= currentQuestionIndex)
      && (timer ==> liveIntervals >= 1)
    }

    /** The discipline the countdown is meant to keep: no interval besides the one the
        handle names, and that one only in a timed test while an unanswered question is
        shown. */
    ghost predicate OneCountdown()
      reads this
    {
      && liveIntervals == (if timer then 1 else 0)
      && (timer ==>
            && currentTestType == Some(App.Timed)
            && currentQuestionIndex < |currentQuestions|
            && currentQuestionIndex !in userAnswers)
    }

    constructor ()
      ensures Valid() && OneCountdown()
      ensures currentTestType == None && currentQuestions == [] && currentQuestionIndex == 0
      ensures userAnswers == map[] && testStartTime == None
      ensures timePerQuestion == LegacyTimePerQuestion && timeLeft == 0
      ensures !timer && liveIntervals == 0
      ensures results == None
    {
      currentTestType := None;
      currentQuestions := [];
      currentQuestionIndex := 0;
      userAnswers := map[];
      testStartTime := None;
      timePerQuestion := LegacyTimePerQuestion;
      timeLeft := 0;
      timer := false;
      liveIntervals := 0;
      results := None;
    }

    /** prepareTest: the deck in order for a sequential test, shuffled otherwise, with
        the cursor on the first question and no answers. Countdowns are not touched. */
    method PrepareTest(deck: seq<Question>, rnd: nat -> real)
      requires Valid() && UnitDraws(rnd) && currentTestType.Some?
      modifies this`currentQuestions, this`currentQuestionIndex, this`userAnswers, this`timePerQuestion
      ensures Valid()
      ensures currentQuestions == App.PrepareTest(deck, currentTestType.value, rnd)
      ensures multiset(currentQuestions) == multiset(deck)
      ensures currentTestType.value == App.Sequential ==> currentQuestions == deck
      ensures currentQuestionIndex == 0 && userAnswers == map[]
      ensures timePerQuestion == if currentTestType.value == App.Timed then LegacyTimePerQuestion else old(timePerQuestion)
      ensures old(OneCountdown()) && !timer ==> OneCountdown()
    {
      App.PrepareTestPermutes(deck, currentTestType.value, rnd);
      currentQuestions := App.PrepareTest(deck, currentTestType.value, rnd);
      if currentTestType.value == App.Timed {
        timePerQuestion := LegacyTimePerQuestion;
      }
      currentQuestionIndex := 0;
      userAnswers := map[];
    }

    /** startQuestionTimer: the countdown restarts at the time per question and a new
        interval is set; the handle now names it, and an interval it named before is
        not cleared. */
    method StartQuestionTimer()
      requires Valid()
      modifies this`timeLeft, this`timer, this`liveIntervals
      ensures Valid()
      ensures timeLeft == timePerQuestion && timer && liveIntervals == old(liveIntervals) + 1
    {
      timeLeft := timePerQuestion;
      timer := true;
      liveIntervals := liveIntervals + 1;
    }

    /** stopQuestionTimer: clears the interval the handle names, if any. */
    method StopQuestionTimer()
      requires Valid()
      modifies this`timer, this`liveIntervals
      ensures Valid() && !timer
      ensures liveIntervals == if old(timer) then old(liveIntervals) - 1 else old(liveIntervals)
      ensures old(OneCountdown()) ==> OneCountdown() && liveIntervals == 0
    {
      if timer {
        liveIntervals := liveIntervals - 1;
        timer := false;
      }
    }

    /** finishTest: stops the countdown and shows the results. */
    method FinishTest()
      requires Valid()
      modifies this`timer, this`liveIntervals, this`results
      ensures Valid() && !timer
      ensures liveIntervals == if old(timer) then old(liveIntervals) - 1 else old(liveIntervals)
      ensures results == Some(ShowResults(currentQuestions, userAnswers))
      ensures old(OneCountdown()) ==> OneCountdown() && liveIntervals == 0
    {
      StopQuestionTimer();
      results := Some(ShowResults(currentQuestions, userAnswers));
    }

    /** displayQuestion: past the last question the test finishes; otherwise the
        question is shown and a timed test starts a countdown for it. */
    method DisplayQuestion()
      requires Valid()
      modifies this`timer, this`liveIntervals, this`results, this`timeLeft
      ensures Valid()
      ensures currentQuestionIndex >= |currentQuestions| ==>
        && !timer && results == Some(ShowResults(currentQuestions, userAnswers))
        && liveIntervals == (if old(timer) then old(liveIntervals) - 1 else old(liveIntervals))
        && timeLeft == old(timeLeft)
      ensures currentQuestionIndex < |currentQuestions| && currentTestType == Some(App.Timed) ==>
        && results == old(results)
        && timer && liveIntervals == old(liveIntervals) + 1 && timeLeft == timePerQuestion
      ensures currentQuestionIndex < |currentQuestions| && currentTestType != Some(App.Timed) ==>
        && results == old(results)
        && timer == old(timer) && liveIntervals == old(liveIntervals) && timeLeft == old(timeLeft)
      ensures old(OneCountdown()) && !old(timer) && currentQuestionIndex !in userAnswers ==> OneCountdown()
    {
      if currentQuestionIndex >= |currentQuestions| {
        FinishTest();
        return;
      }
      if currentTestType == Some(App.Timed) {
        StartQuestionTimer();
      }
    }

    /** startTest: records the start time and shows the first question. */
    method StartTest(now: int)
      requires Valid()
      modifies this`testStartTime, this`timer, this`liveIntervals, this`results, this`timeLeft
      ensures Valid()
      ensures testStartTime == Some(now)
      ensures |currentQuestions| == 0 ==> results == Some(ShowResults(currentQuestions, userAnswers)) && !timer
      ensures currentQuestionIndex < |currentQuestions| && currentTestType == Some(App.Timed) ==>
        timer && liveIntervals == old(liveIntervals) + 1 && timeLeft == timePerQuestion
      ensures currentQuestionIndex < |currentQuestions| && currentTestType != Some(App.Timed) ==>
        timer == old(timer) && liveIntervals == old(liveIntervals) && timeLeft == old(timeLeft)
      ensures old(OneCountdown()) && !old(timer) && currentQuestionIndex !in userAnswers ==> OneCountdown()
    {
      testStartTime := Some(now);
      DisplayQuestion();
    }

    /** selectTestType: remembers the type, prepares the list and starts the test. A
        countdown still set from an earlier test keeps running. */
    method SelectTestType(testType: App.TestType, deck: seq<Question>, rnd: nat -> real, now: int)
      requires Valid() && UnitDraws(rnd)
      modifies this
      ensures Valid()
      ensures currentTestType == Some(testType)
      ensures currentQuestions == App.PrepareTest(deck, testType, rnd)
      ensures multiset(currentQuestions) == multiset(deck)
      ensures currentQuestionIndex == 0 && userAnswers == map[] && testStartTime == Some(now)
      ensures |deck| > 0 && testType == App.Timed ==>
        timer && liveIntervals == old(liveIntervals) + 1 && timeLeft == LegacyTimePerQuestion
      ensures |deck| > 0 && testType != App.Timed ==>
        timer == old(timer) && liveIntervals == old(liveIntervals) && timeLeft == old(timeLeft)
      ensures old(OneCountdown()) && !old(timer) ==> OneCountdown()
    {
      currentTestType := Some(testType);
      PrepareTest(deck, rnd);
      StartTest(now);
    }

    /** The back button of the test screen as written: it only changes the screen, so a
        running countdown stays set. */
    method BackToTestTypesAsWritten()
      ensures unchanged(this)
    {
    }

    /** The back button of the test screen, stopping the countdown as it leaves. */
    method BackToTestTypes()
      requires Valid()
      modifies this`timer, this`liveIntervals
      ensures Valid() && !timer
      ensures liveIntervals == if old(timer) then old(liveIntervals) - 1 else old(liveIntervals)
      ensures old(OneCountdown()) ==> OneCountdown() && liveIntervals == 0
    {
      StopQuestionTimer();
    }

    /** selectAnswer: stores the chosen option at the cursor, replacing any earlier one,
        and in a timed test stops the countdown. */
    method SelectAnswer(answerIndex: int)
      requires Valid() && currentQuestionIndex < |currentQuestions|
      requires 0 <= answerIndex < |currentQuestions[currentQuestionIndex].options|
      modifies this`userAnswers, this`timer, this`liveIntervals
      ensures Valid()
      ensures userAnswers == old(userAnswers)[currentQuestionIndex := answerIndex]
      ensures currentTestType == Some(App.Timed) ==>
        !timer && liveIntervals == (if old(timer) then old(liveIntervals) - 1 else old(liveIntervals))
      ensures currentTestType != Some(App.Timed) ==>
        timer == old(timer) && liveIntervals == old(liveIntervals)
      ensures old(OneCountdown()) ==> OneCountdown() && !timer
    {
      userAnswers := userAnswers[currentQuestionIndex := answerIndex];
      if currentTestType == Some(App.Timed) {
        StopQuestionTimer();
      }
    }

    /** timeOut: stops the countdown and marks an unanswered cursor with -1; an answer
        already given is kept. */
    method TimeOut()
      requires Valid()
      modifies this`userAnswers, this`timer, this`liveIntervals
      ensures Valid() && !timer
      ensures liveIntervals == if old(timer) then old(liveIntervals) - 1 else old(liveIntervals)
      ensures currentQuestionIndex in old(userAnswers) ==> userAnswers == old(userAnswers)
      ensures currentQuestionIndex !in old(userAnswers) ==>
        userAnswers == old(userAnswers)[currentQuestionIndex := TimeoutAnswer]
      ensures old(OneCountdown()) ==> OneCountdown()
    {
      StopQuestionTimer();
      if currentQuestionIndex !in userAnswers {
        userAnswers := userAnswers[currentQuestionIndex := TimeoutAnswer];
      }
    }

    /** One tick of any set countdown interval: a second less, and a timeout at zero or
        below. Under the one-countdown discipline a tick only happens in a timed test. */
    method Tick()
      requires Valid() && liveIntervals > 0
      modifies this`timeLeft, this`userAnswers, this`timer, this`liveIntervals
      ensures Valid()
      ensures timeLeft == old(timeLeft) - 1
      ensures timeLeft > 0 ==>
        userAnswers == old(userAnswers) && timer == old(timer) && liveIntervals == old(liveIntervals)
      ensures timeLeft <= 0 ==>
        !timer && liveIntervals == (if old(timer) then old(liveIntervals) - 1 else old(liveIntervals))
      ensures timeLeft <= 0 && currentQuestionIndex !in old(userAnswers) ==>
        userAnswers == old(userAnswers)[currentQuestionIndex := TimeoutAnswer]
      ensures timeLeft <= 0 && currentQuestionIndex in old(userAnswers) ==> userAnswers == old(userAnswers)
      ensures old(OneCountdown()) ==> OneCountdown() && currentTestType == Some(App.Timed)
    {
      timeLeft := timeLeft - 1;
      if timeLeft <= 0 {
        TimeOut();
      }
    }

    /** nextQuestion: moves on without a check of its own (its button is enabled only
        after an answer or a timeout); stepping past the last question ends the test. */
    method NextQuestion()
      requires Valid() && currentQuestionIndex < |currentQuestions|
      requires currentQuestionIndex in userAnswers
      modifies this`currentQuestionIndex, this`timer, this`liveIntervals, this`results, this`timeLeft
      ensures Valid()
      ensures currentQuestionIndex == old(currentQuestionIndex) + 1
      ensures currentQuestionIndex == |currentQuestions| ==>
        results == Some(ShowResults(currentQuestions, userAnswers)) && !timer
      ensures currentQuestionIndex < |currentQuestions| ==> results == old(results)
      ensures currentQuestionIndex < |currentQuestions| && currentTestType == Some(App.Timed) ==>
        timer && liveIntervals == old(liveIntervals) + 1 && timeLeft == timePerQuestion
      ensures old(OneCountdown()) ==> OneCountdown()
    {
      currentQuestionIndex := currentQuestionIndex + 1;
      DisplayQuestion();
    }

    /** restartTest: the same test type again, from a fresh list. */
    method RestartTest(deck: seq<Question>, rnd: nat -> real, now: int)
      requires Valid() && UnitDraws(rnd) && currentTestType.Some?
      modifies this`currentQuestions, this`currentQuestionIndex, this`userAnswers, this`timePerQuestion
      modifies this`testStartTime, this`timer, this`liveIntervals, this`results, this`timeLeft
      ensures Valid()
      ensures currentQuestions == App.PrepareTest(deck, currentTestType.value, rnd)
      ensures multiset(currentQuestions) == multiset(deck)
      ensures currentQuestionIndex == 0 && userAnswers == map[] && testStartTime == Some(now)
      ensures old(OneCountdown()) && !old(timer) ==> OneCountdown()
    {
      PrepareTest(deck, rnd);
      StartTest(now);
    }
  }

  /** A timed test of one question is left with the back button while its countdown
      runs, and a sequential test of one question is started: thirty seconds later the
      old interval times the sequential question out, which then scores 0. */
  method StaleCountdownAsWritten() returns (answers: map<int, int>, correct: nat)
    ensures answers == map[0 := TimeoutAnswer] && correct == 0
  {
    var q := Question("q", ["a", "b"], 0, None, None);
    var lab := new LegacyTestLab();
    lab.SelectTestType(App.Timed, [q], _ => 0.0, 0);
    lab.BackToTestTypesAsWritten();
    lab.SelectTestType(App.Sequential, [q], _ => 0.0, 1000);
    var k := 0;
    while k < LegacyTimePerQuestion
      invariant 0 <= k <= LegacyTimePerQuestion
      invariant lab.Valid() && lab.currentQuestionIndex == 0 && lab.currentQuestions == [q]
      invariant k < LegacyTimePerQuestion ==>
        lab.liveIntervals == 1 && lab.timeLeft == LegacyTimePerQuestion - k && lab.userAnswers == map[]
      invariant k == LegacyTimePerQuestion ==> lab.userAnswers == map[0 := TimeoutAnswer]
    {
      lab.Tick();
      k := k + 1;
    }
    answers := lab.userAnswers;
    correct := ShowResults(lab.currentQuestions, lab.userAnswers).correctAnswers;
    assert LegacyCorrectCount([q][..0], answers) == 0;
  }

  /** The same flow with a back button that stops the countdown: no interval is left to
      tick, so the sequential question stays unanswered until the learner answers. */
  method StaleCountdownStopped() returns (live: nat, answers: map<int, int>)
    ensures live == 0 && answers == map[]
  {
    var q := Question("q", ["a", "b"], 0, None, None);
    var lab := new LegacyTestLab();
    lab.SelectTestType(App.Timed, [q], _ => 0.0, 0);
    lab.BackToTestTypes();
    lab.SelectTestType(App.Sequential, [q], _ => 0.0, 1000);
    live := lab.liveIntervals;
    answers := lab.userAnswers;
  }
}
