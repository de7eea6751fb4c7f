/** js/navigation-manager.js: the three-slot status grid and the previous/next button
    flags as projections of the session, and the click handlers that drive it. */
module Navigation {

  import opened Wrappers
  import opened Deck
  import opened JsBuiltins
  import opened QuestionSession
  import Utils

  /** The grid's question indices: previous, current, next (None: no question there). */
  function SlotIndices(current: int, total: int): (r: seq<Option<int>>)
    ensures |r| == 3 && r[1] == Some(current)
    ensures r[0].Some? <==> current > 0
    ensures r[0].Some? ==> r[0].value == current - 1
    ensures r[2].Some? <==> current < total - 1
    ensures r[2].Some? ==> r[2].value == current + 1
  {
    [ if current > 0 then Some(current - 1) else None,
      Some(current),
      if current < total - 1 then Some(current + 1) else None ]
  }

  /** The class a grid button gets. */
  datatype Status = Current | AnsweredCorrect | AnsweredIncorrect | Visited | NoStatus

  /** A grid button: disabled with a dash when its slot is empty, otherwise enabled,
      labelled with the 1-based question number and carrying a status. */
  datatype SlotView = Disabled | Enabled(questionIndex: int, number: int, status: Status)

  function MemoAt(memos: seq<Option<ShuffledAnswers>>, i: int): Option<ShuffledAnswers>
  {
    if 0 <= i < |memos| then memos[i] else None
  }

  /** The status of question i: current first, then answered (correct or not), then visited. */
  function SlotStatus(
    i: int, current: int, answers: seq<Option<int>>,
    memos: seq<Option<ShuffledAnswers>>, visited: set<int>): Status
  {
    if i == current then Current
    else if AnswerAt(answers, i).Some? then
      if CorrectAt(AnswerAt(answers, i), MemoAt(memos, i)) then AnsweredCorrect else AnsweredIncorrect
    else if i in visited then Visited
    else NoStatus
  }

  /** updateQuestionStatusGrid: the three buttons for the session state. */
  function StatusGrid(
    current: int, total: int, answers: seq<Option<int>>,
    memos: seq<Option<ShuffledAnswers>>, visited: set<int>): (g: seq<SlotView>)
    ensures |g| == 3
  {
    seq(3, s requires 0 <= s < 3 =>
      match SlotIndices(current, total)[s]
      case None => Disabled
      case Some(i) => Enabled(i, i + 1, SlotStatus(i, current, answers, memos, visited)))
  }

  /** On a valid session the grid shows the current question in the middle slot, an
      empty slot exactly at either end of the list, only valid neighbouring indices,
      "current" only for the cursor even when it is answered, answered-correct exactly
      for the answers getTestStats counts as correct, and "visited" only for
      unanswered visited positions. */
  lemma StatusGridSpec(
    current: int, total: int, answers: seq<Option<int>>,
    memos: seq<Option<ShuffledAnswers>>, visited: set<int>)
    requires 0 <= current < total
    requires |answers| == total && |memos| == total
    ensures var g := StatusGrid(current, total, answers, memos, visited);
      && g[1] == Enabled(current, current + 1, Current)
      && (g[0] == Disabled <==> current == 0)
      && (g[2] == Disabled <==> current == total - 1)
      && (forall s :: 0 <= s < 3 && g[s].Enabled? ==>
            && g[s].questionIndex == current + s - 1
            && 0 <= g[s].questionIndex < total
            && g[s].number == g[s].questionIndex + 1
            && (g[s].status == Current <==> s == 1))
      && (forall s :: 0 <= s < 3 && s != 1 && g[s].Enabled? ==>
            var i := g[s].questionIndex;
            && (g[s].status == AnsweredCorrect <==> CorrectAt(answers[i], memos[i]))
            && (g[s].status == AnsweredIncorrect <==> answers[i].Some? && !CorrectAt(answers[i], memos[i]))
            && (g[s].status == Visited <==> answers[i].None? && i in visited)
            && (g[s].status == NoStatus <==> answers[i].None? && i !in visited))
  {
  }

  datatype NextLabel = Arrow | SeeResults

  datatype NavButtons = NavButtons(prevDisabled: bool, nextDisabled: bool, nextLabel: NextLabel)

  /** updateNavigationButtons: previous is disabled on the first question; on an
      answered last question next is enabled and reads "Ver Resultados"; otherwise next
      is disabled while the current question is unanswered. */
  function NavigationButtons(current: int, total: int, answers: seq<Option<int>>): (b: NavButtons)
    ensures b.prevDisabled <==> current == 0
    ensures b.nextDisabled <==> AnswerAt(answers, current).None?
    ensures b.nextLabel == SeeResults <==> current >= total - 1 && AnswerAt(answers, current).Some?
  {
    var hasAnswered := AnswerAt(answers, current).Some?;
    var isLastQuestion := current >= total - 1;
    if isLastQuestion && hasAnswered then NavButtons(current == 0, false, SeeResults)
    else NavButtons(current == 0, !hasAnswered, Arrow)
  }

  /** An empty session (a sequential range with start after end yields one) can never
      offer the results: there is no answer at the cursor, so next stays disabled. */
  lemma EmptySessionNeverFinishes(current: int)
    ensures NavigationButtons(current, 0, []).nextDisabled
    ensures NavigationButtons(current, 0, []).nextLabel == Arrow
  {
  }

  /** What one run of the next button's click handler did. */
  datatype NextOutcome = Completed | Advanced | AnswerRequired

  /** Where a click on the next button leaves the cursor, and how many of the click's
      handlers called onTestComplete. */
  datatype ClickRun = ClickRun(cursor: int, completions: nat)

  /** One run of the next handler on an n-question session with these answers: an
      answered last question completes, any other answered question advances, and an
      unanswered one changes nothing. The handler leaves the answers as they were. */
  function NextStep(answers: seq<Option<int>>, n: int, r: ClickRun): ClickRun
  {
    if AnswerAt(answers, r.cursor).None? then r
    else if r.cursor >= n - 1 then r.(completions := r.completions + 1)
    else r.(cursor := r.cursor + 1)
  }

  /** A click that runs `handlers` next handlers in turn, starting at `cursor`. */
  function NextClicks(answers: seq<Option<int>>, n: int, cursor: int, handlers: nat): (r: ClickRun)
    ensures handlers == 0 ==> r == ClickRun(cursor, 0)
  {
    if handlers == 0 then ClickRun(cursor, 0)
    else NextStep(answers, n, NextClicks(answers, n, cursor, handlers - 1))
  }

  /** A click never moves the cursor back, and moves it at most one position per
      handler and never past the last question. */
  lemma {:induction false} NextClicksBounded(answers: seq<Option<int>>, n: int, cursor: int, handlers: nat)
    ensures var r := NextClicks(answers, n, cursor, handlers);
      && cursor <= r.cursor <= cursor + handlers
      && r.cursor <= Max(cursor, n - 1)
      && r.completions <= handlers
  {
    if handlers > 0 {
      NextClicksBounded(answers, n, cursor, handlers - 1);
    }
  }

  /** With several handlers attached, one click walks over a run of answered questions:
      each handler advances once more, so the questions in between are skipped. */
  lemma {:induction false} NextClicksSkipAnswered(answers: seq<Option<int>>, n: int, cursor: int, handlers: nat)
    requires cursor + handlers <= n - 1
    requires forall j :: cursor <= j < cursor + handlers ==> AnswerAt(answers, j).Some?
    ensures NextClicks(answers, n, cursor, handlers) == ClickRun(cursor + handlers, 0)
  {
    if handlers > 0 {
      NextClicksSkipAnswered(answers, n, cursor, handlers - 1);
      assert AnswerAt(answers, cursor + handlers - 1).Some?;
    }
  }

  /** With two handlers, a click on the question before the last, both answered, moves
      to the last question and completes the test there. */
  lemma NextClicksCompleteEarly(answers: seq<Option<int>>, n: int)
    requires 2 <= n == |answers|
    requires answers[n - 2].Some? && answers[n - 1].Some?
    ensures NextClicks(answers, n, n - 2, 2) == ClickRun(n - 1, 1)
  {
    assert NextClicks(answers, n, n - 2, 1) == ClickRun(n - 1, 0);
  }

  /** Between two states of a session's memos: every stored memo is kept, and only the
      positions after `from` up to `to` may have changed. */
  ghost predicate MemosGrown(before: seq<Option<ShuffledAnswers>>, after: seq<Option<ShuffledAnswers>>,
    from: int, to: int)
  {
    && |after| == |before|
    && forall k :: 0 <= k < |before| ==>
      && (before[k].Some? ==> after[k] == before[k])
      && (!(from < k <= to) ==> after[k] == before[k])
  }

  /** Memos grown from `from` to `mid` and then from `mid` to `to` are grown from
      `from` to `to`. */
  lemma MemosGrownTrans(
    a: seq<Option<ShuffledAnswers>>, b: seq<Option<ShuffledAnswers>>, c: seq<Option<ShuffledAnswers>>,
    from: int, mid: int, to: int)
    requires from <= mid <= to
    requires MemosGrown(a, b, from, mid) && MemosGrown(b, c, mid, to)
    ensures MemosGrown(a, c, from, to)
  {
  }

  /** One more handler run continues a click from where the runs before it left off. */
  lemma NextClicksStep(answers: seq<Option<int>>, n: int, cursor: int, handlers: nat)
    ensures var r := NextClicks(answers, n, cursor, handlers);
      var s := NextStep(answers, n, ClickRun(r.cursor, 0));
      NextClicks(answers, n, cursor, handlers + 1) == ClickRun(s.cursor, r.completions + s.completions)
  {
  }

  /** A click on the last answered question completes the test once per handler. */
  lemma {:induction false} NextClicksCompleteRepeatedly(
    answers: seq<Option<int>>, n: int, cursor: int, handlers: nat)
    requires cursor >= n - 1 && AnswerAt(answers, cursor).Some?
    ensures NextClicks(answers, n, cursor, handlers) == ClickRun(cursor, handlers)
  {
    if handlers > 0 {
      NextClicksCompleteRepeatedly(answers, n, cursor, handlers - 1);
    }
  }

  class NavigationManager {
    const questionManager: QuestionManager
    var eventListenersSetup: bool
    /** Click handlers attached to the page's static previous and next buttons. */
    var prevClickHandlers: nat
    var nextClickHandlers: nat

    ghost predicate Valid()
      reads this, questionManager
    {
      && questionManager.Valid()
      && prevClickHandlers == nextClickHandlers
      && (eventListenersSetup ==> prevClickHandlers >= 1)
    }

    /** Exactly one handler per button while the flag is set, none while it is clear. */
    ghost predicate ListenersOnce()
      reads this
    {
      prevClickHandlers == nextClickHandlers == (if eventListenersSetup then 1 else 0)
    }

    constructor (questionManager: QuestionManager)
      requires questionManager.Valid()
      ensures Valid() && ListenersOnce()
      ensures this.questionManager == questionManager && !eventListenersSetup
    {
      this.questionManager := questionManager;
      eventListenersSetup := false;
      prevClickHandlers := 0;
      nextClickHandlers := 0;
    }

    /** setupNavigationEventListeners: attaches one handler to each button unless the
        flag says this was done, or the buttons are missing from the page. */
    method SetupNavigationEventListeners(buttonsPresent: bool)
      requires Valid()
      modifies this
      ensures Valid()
      ensures old(eventListenersSetup) || !buttonsPresent ==>
        (eventListenersSetup == old(eventListenersSetup)
         && prevClickHandlers == old(prevClickHandlers) && nextClickHandlers == old(nextClickHandlers))
      ensures !old(eventListenersSetup) && buttonsPresent ==>
        (eventListenersSetup
         && prevClickHandlers == old(prevClickHandlers) + 1 && nextClickHandlers == old(nextClickHandlers) + 1)
      ensures old(ListenersOnce()) ==> ListenersOnce()
    {
      if eventListenersSetup {
        return;
      }
      if !buttonsPresent {
        return;
      }
      prevClickHandlers := prevClickHandlers + 1;
      nextClickHandlers := nextClickHandlers + 1;
      eventListenersSetup := true;
    }

    /** reset as written: clears the flag although the previous and next buttons, which
        are not rebuilt, keep the handlers already attached to them. */
    method ResetAsWritten()
      requires Valid()
      modifies this
      ensures Valid()
      ensures !eventListenersSetup
      ensures prevClickHandlers == old(prevClickHandlers) && nextClickHandlers == old(nextClickHandlers)
    {
      eventListenersSetup := false;
    }

    /** reset as evidently intended: the flag keeps recording that the static buttons
        already carry their handlers, so the next test does not attach them again. */
    method Reset()
      requires Valid()
      modifies this
      ensures Valid()
      ensures eventListenersSetup == old(eventListenersSetup)
      ensures prevClickHandlers == old(prevClickHandlers) && nextClickHandlers == old(nextClickHandlers)
      ensures old(ListenersOnce()) ==> ListenersOnce()
    {
    }

    /** The grid buttons' click handler (createQuestionStatusGrid): a valid index jumps
        there and displays it. */
    method HandleGridClick(questionIndex: int, rnd: nat -> real) returns (moved: bool)
      requires Valid() && Utils.UnitDraws(rnd)
      modifies questionManager
      ensures Valid()
      ensures questionManager.currentQuestions == old(questionManager.currentQuestions)
      ensures questionManager.userAnswers == old(questionManager.userAnswers)
      ensures moved <==> 0 <= questionIndex < |questionManager.currentQuestions|
      ensures moved ==> (questionManager.currentQuestionIndex == questionIndex
        && questionManager.visitedQuestions
           == old(questionManager.visitedQuestions) + {old(questionManager.currentQuestionIndex), questionIndex}
        && questionManager.questionStates == old(questionManager.questionStates)
        && questionManager.shuffledAnswers == AfterDisplay(old(questionManager.shuffledAnswers),
             questionIndex, questionManager.currentQuestions[questionIndex], rnd))
      ensures !moved ==> unchanged(questionManager)
    {
      moved := false;
      if 0 <= questionIndex < |questionManager.currentQuestions| {
        moved := questionManager.GoToQuestion(questionIndex);
        if moved {
          var _ := questionManager.DisplayQuestion(rnd);
        }
      }
    }

    /** One run of the previous button's handler. */
    method HandlePrev(rnd: nat -> real) returns (moved: bool)
      requires Valid() && Utils.UnitDraws(rnd)
      modifies questionManager
      ensures Valid()
      ensures questionManager.currentQuestions == old(questionManager.currentQuestions)
      ensures questionManager.userAnswers == old(questionManager.userAnswers)
      ensures moved <==> old(questionManager.currentQuestionIndex) > 0
      ensures moved ==> (questionManager.currentQuestionIndex == old(questionManager.currentQuestionIndex) - 1
        && questionManager.visitedQuestions
           == old(questionManager.visitedQuestions) + {questionManager.currentQuestionIndex}
        && questionManager.questionStates == old(questionManager.questionStates)
        && questionManager.shuffledAnswers == AfterDisplay(old(questionManager.shuffledAnswers),
             questionManager.currentQuestionIndex,
             questionManager.currentQuestions[questionManager.currentQuestionIndex], rnd))
      ensures !moved ==> unchanged(questionManager)
    {
      moved := questionManager.PrevQuestion();
      if moved {
        var _ := questionManager.DisplayQuestion(rnd);
      }
    }

    /** One run of the next button's handler: finish on an answered last question,
        advance on any other answered question, and otherwise change nothing. */
    method HandleNext(rnd: nat -> real) returns (outcome: NextOutcome)
      requires Valid() && Utils.UnitDraws(rnd)
      modifies questionManager
      ensures Valid()
      ensures questionManager.currentQuestions == old(questionManager.currentQuestions)
      ensures questionManager.userAnswers == old(questionManager.userAnswers)
      ensures var cur := old(questionManager.currentQuestionIndex);
        var answered := AnswerAt(old(questionManager.userAnswers), cur).Some?;
        && (outcome == Completed <==> answered && cur >= |questionManager.currentQuestions| - 1)
        && (outcome == Advanced <==> answered && cur < |questionManager.currentQuestions| - 1)
        && (outcome == AnswerRequired <==> !answered)
      ensures outcome != Advanced ==> unchanged(questionManager)
      ensures outcome == Advanced ==>
        (questionManager.currentQuestionIndex == old(questionManager.currentQuestionIndex) + 1
         && questionManager.visitedQuestions
            == old(questionManager.visitedQuestions) + {questionManager.currentQuestionIndex}
         && questionManager.questionStates == old(questionManager.questionStates)
         && questionManager.shuffledAnswers == AfterDisplay(old(questionManager.shuffledAnswers),
              questionManager.currentQuestionIndex,
              questionManager.currentQuestions[questionManager.currentQuestionIndex], rnd))
    {
      var isLastQuestion := questionManager.currentQuestionIndex >= |questionManager.currentQuestions| - 1;
      var hasAnswered := AnswerAt(questionManager.userAnswers, questionManager.currentQuestionIndex).Some?;
      if isLastQuestion && hasAnswered {
        outcome := Completed;
      } else if hasAnswered {
        var moved := questionManager.NextQuestion();
        if moved {
          var _ := questionManager.DisplayQuestion(rnd);
        }
        outcome := Advanced;
      } else {
        outcome := AnswerRequired;
      }
    }

    /** A click on the previous button runs every handler attached to it, in turn. */
    method ClickPrev(rnd: nat -> real)
      requires Valid() && Utils.UnitDraws(rnd)
      modifies questionManager
      ensures Valid()
      ensures questionManager.currentQuestions == old(questionManager.currentQuestions)
      ensures questionManager.userAnswers == old(questionManager.userAnswers)
      ensures questionManager.questionStates == old(questionManager.questionStates)
      ensures questionManager.currentQuestionIndex
        == Max(0, old(questionManager.currentQuestionIndex) - prevClickHandlers)
      ensures prevClickHandlers > 0 && old(questionManager.currentQuestionIndex) > 0 ==>
        questionManager.shuffledAnswers[questionManager.currentQuestionIndex].Some?
      ensures forall k :: 0 <= k < |questionManager.currentQuestions| ==>
        && (old(questionManager.shuffledAnswers[k]).Some? ==>
              questionManager.shuffledAnswers[k] == old(questionManager.shuffledAnswers[k]))
        && (!(questionManager.currentQuestionIndex <= k < old(questionManager.currentQuestionIndex)) ==>
              questionManager.shuffledAnswers[k] == old(questionManager.shuffledAnswers[k]))
    {
      var k := 0;
      while k < prevClickHandlers
        invariant 0 <= k <= prevClickHandlers
        invariant Valid()
        invariant questionManager.currentQuestions == old(questionManager.currentQuestions)
        invariant questionManager.userAnswers == old(questionManager.userAnswers)
        invariant questionManager.questionStates == old(questionManager.questionStates)
        invariant questionManager.currentQuestionIndex
          == Max(0, old(questionManager.currentQuestionIndex) - k)
        invariant k > 0 && old(questionManager.currentQuestionIndex) > 0 ==>
          questionManager.shuffledAnswers[questionManager.currentQuestionIndex].Some?
        invariant forall j :: 0 <= j < |questionManager.currentQuestions| ==>
          && (old(questionManager.shuffledAnswers[j]).Some? ==>
                questionManager.shuffledAnswers[j] == old(questionManager.shuffledAnswers[j]))
          && (!(questionManager.currentQuestionIndex <= j < old(questionManager.currentQuestionIndex)) ==>
                questionManager.shuffledAnswers[j] == old(questionManager.shuffledAnswers[j]))
      {
        var _ := HandlePrev(rnd);
        k := k + 1;
      }
    }

    /** The state of a click on the next button after `k` of its handlers ran, from a
        session whose answers were `answers`, cursor `cursor0` and memos `memos0`. */
    ghost predicate ClickAfter(
      answers: seq<Option<int>>, cursor0: int, memos0: seq<Option<ShuffledAnswers>>, k: nat, completions: nat)
      reads this, questionManager
    {
      && Valid()
      && questionManager.userAnswers == answers
      && NextClicks(answers, |questionManager.currentQuestions|, cursor0, k)
         == ClickRun(questionManager.currentQuestionIndex, completions)
      && cursor0 <= questionManager.currentQuestionIndex
      && (questionManager.currentQuestionIndex > cursor0 ==>
            && questionManager.currentQuestionIndex < |questionManager.shuffledAnswers|
            && questionManager.shuffledAnswers[questionManager.currentQuestionIndex].Some?)
      && MemosGrown(memos0, questionManager.shuffledAnswers, cursor0, questionManager.currentQuestionIndex)
    }

    /** One more handler of a click on the next button runs. */
    method RunNextHandler(
      rnd: nat -> real, ghost answers: seq<Option<int>>, ghost cursor0: int,
      ghost memos0: seq<Option<ShuffledAnswers>>, ghost k: nat, completions: nat)
      returns (completions': nat)
      requires Utils.UnitDraws(rnd) && ClickAfter(answers, cursor0, memos0, k, completions)
      modifies questionManager
      ensures ClickAfter(answers, cursor0, memos0, k + 1, completions')
      ensures questionManager.currentQuestions == old(questionManager.currentQuestions)
      ensures questionManager.questionStates == old(questionManager.questionStates)
    {
      ghost var memos := questionManager.shuffledAnswers;
      ghost var cursor := questionManager.currentQuestionIndex;
      var outcome := HandleNext(rnd);
      NextClicksStep(answers, |questionManager.currentQuestions|, cursor0, k);
      MemosGrownTrans(memos0, memos, questionManager.shuffledAnswers, cursor0, cursor,
        questionManager.currentQuestionIndex);
      completions' := if outcome == Completed then completions + 1 else completions;
    }

    /** A click on the next button runs every handler attached to it, in turn; each run
        sees the state the previous one left. */
    method ClickNext(rnd: nat -> real) returns (completions: nat)
      requires Valid() && Utils.UnitDraws(rnd)
      modifies questionManager
      ensures Valid()
      ensures questionManager.currentQuestions == old(questionManager.currentQuestions)
      ensures questionManager.userAnswers == old(questionManager.userAnswers)
      ensures questionManager.questionStates == old(questionManager.questionStates)
      ensures NextClicks(questionManager.userAnswers, |questionManager.currentQuestions|,
        old(questionManager.currentQuestionIndex), nextClickHandlers)
        == ClickRun(questionManager.currentQuestionIndex, completions)
      ensures questionManager.currentQuestionIndex > old(questionManager.currentQuestionIndex) ==>
        questionManager.shuffledAnswers[questionManager.currentQuestionIndex].Some?
      ensures MemosGrown(old(questionManager.shuffledAnswers), questionManager.shuffledAnswers,
        old(questionManager.currentQuestionIndex), questionManager.currentQuestionIndex)
    {
      ghost var answers := questionManager.userAnswers;
      ghost var cursor0 := questionManager.currentQuestionIndex;
      ghost var memos0 := questionManager.shuffledAnswers;
      completions := 0;
      var k := 0;
      while k < nextClickHandlers
        invariant 0 <= k <= nextClickHandlers
        invariant ClickAfter(answers, cursor0, memos0, k, completions)
        invariant questionManager.currentQuestions == old(questionManager.currentQuestions)
        invariant questionManager.questionStates == old(questionManager.questionStates)
      {
        completions := RunNextHandler(rnd, answers, cursor0, memos0, k, completions);
        k := k + 1;
      }
    }
  }

  /** The main flow of a test: a click on the grid displays the question it names,
      which can then be answered there. */
  method GridClickThenAnswer() returns (answer: Option<int>, memoStored: bool)
    ensures answer == Some(0) && memoStored
  {
    var q := Question("q", ["a", "b"], 0, None, None);
    var session := new QuestionManager();
    session.InitializeQuestionState([q, q]);
    var nav := new NavigationManager(session);
    var moved := nav.HandleGridClick(1, _ => 0.0);
    session.SelectAnswer(0);
    answer := session.userAnswers[1];
    memoStored := session.shuffledAnswers[1].Some?;
  }

  /** The flow after "restart" with reset as written: a second handler is attached to
      the previous button, and one click from question 3 lands on question 1. */
  method RestartedPrevClickAsWritten() returns (cursor: int)
    ensures cursor == 0
  {
    var q := Question("q", ["a", "b"], 0, None, None);
    var session := new QuestionManager();
    session.InitializeQuestionState([q, q, q]);
    var nav := new NavigationManager(session);
    nav.SetupNavigationEventListeners(true);
    nav.ResetAsWritten();
    session.InitializeQuestionState([q, q, q]);
    nav.SetupNavigationEventListeners(true);
    var _ := session.GoToQuestion(2);
    nav.ClickPrev(_ => 0.0);
    cursor := session.currentQuestionIndex;
  }

  /** The same flow with the corrected reset: one click moves back one question. */
  method RestartedPrevClick() returns (cursor: int)
    ensures cursor == 1
  {
    var q := Question("q", ["a", "b"], 0, None, None);
    var session := new QuestionManager();
    session.InitializeQuestionState([q, q, q]);
    var nav := new NavigationManager(session);
    nav.SetupNavigationEventListeners(true);
    nav.Reset();
    session.InitializeQuestionState([q, q, q]);
    nav.SetupNavigationEventListeners(true);
    var _ := session.GoToQuestion(2);
    nav.ClickPrev(_ => 0.0);
    cursor := session.currentQuestionIndex;
  }

  /** The "next" flow after "restart" with reset as written: two handlers on the next
      button, questions 1 and 2 answered and question 1 on screen. One click passes
      question 2 by and lands on question 3. */
  method RestartedNextClickAsWritten() returns (cursor: int, completions: nat)
    ensures cursor == 2 && completions == 0
  {
    var q := Question("q", ["a", "b"], 0, None, None);
    var session := new QuestionManager();
    session.InitializeQuestionState([q, q, q]);
    var nav := new NavigationManager(session);
    nav.SetupNavigationEventListeners(true);
    nav.ResetAsWritten();
    session.InitializeQuestionState([q, q, q]);
    nav.SetupNavigationEventListeners(true);
    AnswerTwoThenBack(nav);
    completions := nav.ClickNext(_ => 0.0);
    cursor := session.currentQuestionIndex;
  }

  /** The same flow with the corrected reset: one click moves on to question 2. */
  method RestartedNextClick() returns (cursor: int, completions: nat)
    ensures cursor == 1 && completions == 0
  {
    var q := Question("q", ["a", "b"], 0, None, None);
    var session := new QuestionManager();
    session.InitializeQuestionState([q, q, q]);
    var nav := new NavigationManager(session);
    nav.SetupNavigationEventListeners(true);
    nav.Reset();
    session.InitializeQuestionState([q, q, q]);
    nav.SetupNavigationEventListeners(true);
    AnswerTwoThenBack(nav);
    completions := nav.ClickNext(_ => 0.0);
    cursor := session.currentQuestionIndex;
  }

  /** On a three-question session: answer questions 1 and 2 through the grid, then go
      back to question 1. */
  method AnswerTwoThenBack(nav: NavigationManager)
    requires nav.Valid() && |nav.questionManager.currentQuestions| == 3
    requires forall i :: 0 <= i < 3 ==> |nav.questionManager.currentQuestions[i].options| == 2
    modifies nav.questionManager
    ensures nav.Valid() && nav.questionManager.currentQuestionIndex == 0
    ensures nav.questionManager.currentQuestions == old(nav.questionManager.currentQuestions)
    ensures nav.questionManager.userAnswers[0].Some? && nav.questionManager.userAnswers[1].Some?
  {
    var session := nav.questionManager;
    var _ := nav.HandleGridClick(0, _ => 0.0);
    session.SelectAnswer(0);
    var _ := nav.HandleGridClick(1, _ => 0.0);
    session.SelectAnswer(0);
    var _ := nav.HandleGridClick(0, _ => 0.0);
  }
}
