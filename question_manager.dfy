/** The question session of js/question-manager.js: the working question list, the
    cursor, the per-position answers, states and memoised option orders, the visited
    set, and the statistics computed from them. */
module QuestionSession {

  import opened Wrappers
  import opened Deck
  import Utils

  /** An option tagged with its authored position, as displayAnswers builds it. */
  datatype AnswerOption = AnswerOption(text: string, originalIndex: int)

  /** What shuffledAnswers[i] memoises: the options in display order and the display
      index of the correct option (-1 when no option carries the correct index). */
  datatype ShuffledAnswers = ShuffledAnswers(options: seq<AnswerOption>, correctAnswerIndex: int)

  datatype QuestionState = Unanswered | Answered

  /** The record getTestStats returns; `percentage` is None where the source gets NaN. */
  datatype TestStats = TestStats(
    totalQuestions: nat,
    correctAnswers: nat,
    incorrectAnswers: int,
    percentage: Option<int>,
    answeredQuestions: nat)

  /** `options.map((option, index) => ({ text: option, originalIndex: index }))`. */
  function Tagged(options: seq<string>): (r: seq<AnswerOption>)
    ensures |r| == |options|
    ensures forall k :: 0 <= k < |r| ==> r[k] == AnswerOption(options[k], k)
  {
    seq(|options|, k requires 0 <= k < |options| => AnswerOption(options[k], k))
  }

  /** `options.findIndex(o => o.originalIndex === target)`: the first matching display
      position, or -1 when there is none. */
  function FindIndex(options: seq<AnswerOption>, target: int): (r: int)
    ensures -1 <= r < |options|
    ensures r == -1 <==> forall k :: 0 <= k < |options| ==> options[k].originalIndex != target
    ensures r >= 0 ==> options[r].originalIndex == target
    ensures r >= 0 ==> forall k :: 0 <= k < r ==> options[k].originalIndex != target
  {
    if |options| == 0 then -1
    else if options[0].originalIndex == target then 0
    else
      var t := FindIndex(options[1..], target);
      if t == -1 then -1 else t + 1
  }

  /** The memo displayAnswers computes the first time a question is shown. */
  function Memo(q: Question, rnd: nat -> real): ShuffledAnswers
    requires Utils.UnitDraws(rnd)
  {
    var options := Utils.Shuffle(Tagged(q.options), rnd);
    ShuffledAnswers(options, FindIndex(options, q.correctAnswer))
  }

  /** The memo slots after position i is displayed: a stored order is kept, and an empty
      slot receives the order Memo draws; no other slot changes. */
  function AfterDisplay(memos: seq<Option<ShuffledAnswers>>, i: nat, q: Question, rnd: nat -> real)
    : (r: seq<Option<ShuffledAnswers>>)
    requires i < |memos| && Utils.UnitDraws(rnd)
    ensures |r| == |memos| && r[i].Some?
    ensures memos[i].Some? ==> r[i] == memos[i]
    ensures memos[i].None? ==> r[i] == Some(Memo(q, rnd))
    ensures forall k :: 0 <= k < |memos| && k != i ==> r[k] == memos[k]
  {
    memos[i := Some(if memos[i].Some? then memos[i].value else Memo(q, rnd))]
  }

  /** A memo is a permutation of the tagged options, and its correct index is where the
      correct original index ended up. */
  ghost predicate WellFormedMemo(q: Question, m: ShuffledAnswers)
  {
    && multiset(m.options) == multiset(Tagged(q.options))
    && Utils.Distinct(m.options)
    && m.correctAnswerIndex == FindIndex(m.options, q.correctAnswer)
  }

  /** Every memo displayAnswers computes is well formed. */
  lemma MemoWellFormed(q: Question, rnd: nat -> real)
    requires Utils.UnitDraws(rnd)
    ensures WellFormedMemo(q, Memo(q, rnd))
  {
    var tagged := Tagged(q.options);
    Utils.ShufflePermutes(tagged, rnd);
    Utils.ShuffleKeepsDistinct(tagged, rnd);
  }

  lemma MemberOfTagged(options: seq<string>, e: AnswerOption)
    requires e in multiset(Tagged(options))
    ensures 0 <= e.originalIndex < |options|
    ensures e == AnswerOption(options[e.originalIndex], e.originalIndex)
  {
    assert e in Tagged(options);
  }

  /** In a well-formed memo the stored correct index is in range exactly when the
      question's correctAnswer is, it shows the authored correct option, and a display
      index equals it exactly when the option there carries the original correct index. */
  lemma MemoKeyMapsBack(q: Question, m: ShuffledAnswers)
    requires WellFormedMemo(q, m)
    ensures |m.options| == |q.options|
    ensures m.correctAnswerIndex >= 0 <==> 0 <= q.correctAnswer < |q.options|
    ensures m.correctAnswerIndex >= 0 ==>
      m.options[m.correctAnswerIndex] == AnswerOption(q.options[q.correctAnswer], q.correctAnswer)
    ensures forall k :: 0 <= k < |m.options| ==>
      (k == m.correctAnswerIndex <==> m.options[k].originalIndex == q.correctAnswer)
  {
    var tagged := Tagged(q.options);
    assert |m.options| == |multiset(m.options)| == |multiset(tagged)| == |q.options|;
    var c := q.correctAnswer;
    if 0 <= c < |q.options| {
      assert tagged[c] in multiset(m.options);
      var k :| 0 <= k < |m.options| && m.options[k] == tagged[c];
      assert m.options[k].originalIndex == c;
    }
    forall k | 0 <= k < |m.options| && m.options[k].originalIndex == c
      ensures k == m.correctAnswerIndex
    {
      var r := m.correctAnswerIndex;
      assert m.options[k] in multiset(m.options);
      MemberOfTagged(q.options, m.options[k]);
      assert r >= 0;
      assert m.options[r] in multiset(m.options);
      MemberOfTagged(q.options, m.options[r]);
    }
    if m.correctAnswerIndex >= 0 {
      assert m.options[m.correctAnswerIndex] in multiset(m.options);
      MemberOfTagged(q.options, m.options[m.correctAnswerIndex]);
    }
  }

  /** The answer recorded at position i, `undefined` (None) past the end. */
  function AnswerAt(answers: seq<Option<int>>, i: int): Option<int>
  {
    if 0 <= i < |answers| then answers[i] else None
  }

  /** `userAnswer !== undefined && userAnswer === question.shuffledCorrectAnswer`, where
      the correct display index is that of the position's memo (undefined before the
      question was first displayed). */
  predicate CorrectAt(answer: Option<int>, memo: Option<ShuffledAnswers>)
  {
    answer.Some? && memo.Some? && answer.value == memo.value.correctAnswerIndex
  }

  /** How many positions hold an answer equal to their correct display index. */
  function CorrectCount(answers: seq<Option<int>>, memos: seq<Option<ShuffledAnswers>>): nat
    requires |answers| == |memos|
  {
    if |answers| == 0 then 0
    else
      var n := |answers| - 1;
      CorrectCount(answers[..n], memos[..n]) + (if CorrectAt(answers[n], memos[n]) then 1 else 0)
  }

  /** `userAnswers.filter(answer => answer !== undefined).length`. */
  function AnsweredCount(answers: seq<Option<int>>): nat
  {
    if |answers| == 0 then 0
    else
      var n := |answers| - 1;
      AnsweredCount(answers[..n]) + (if answers[n].Some? then 1 else 0)
  }

  /** `Math.round((correct / total) * 100)` on exact rationals: half rounds up, and a
      zero total gives NaN (None). */
  function RoundPercent(correct: nat, total: nat): Option<int>
  {
    if total == 0 then None else Some((200 * correct + total) / (2 * total))
  }

  /** The rounded percentage is the integer nearest to 100 * correct / total (a half
      rounds up), and it lies in [0, 100] when correct <= total. */
  lemma RoundPercentNearest(correct: nat, total: nat)
    requires total > 0
    ensures RoundPercent(correct, total).Some?
    ensures var p := RoundPercent(correct, total).value;
      -(total as int) < 2 * (p * total - 100 * correct) <= total
    ensures correct <= total ==> 0 <= RoundPercent(correct, total).value <= 100
  {
    var p := (200 * correct + total) / (2 * total);
    var rem := (200 * correct + total) % (2 * total);
    assert 200 * correct + total == p * (2 * total) + rem && 0 <= rem < 2 * total;
    assert 2 * (p * total) == p * (2 * total);
    if correct <= total {
      assert p >= 0;
      if p > 100 {
        assert false;
      }
    }
  }

  /** Counted correct answers never exceed the answered positions, which never exceed
      the number of positions. */
  lemma {:induction false} CountsBounded(answers: seq<Option<int>>, memos: seq<Option<ShuffledAnswers>>)
    requires |answers| == |memos|
    ensures CorrectCount(answers, memos) <= AnsweredCount(answers) <= |answers|
  {
    if |answers| > 0 {
      var n := |answers| - 1;
      CountsBounded(answers[..n], memos[..n]);
    }
  }

  /** Every position is answered exactly when the answered count is the length. */
  lemma {:induction false} AllAnsweredCount(answers: seq<Option<int>>)
    ensures AnsweredCount(answers) == |answers| <==> forall i :: 0 <= i < |answers| ==> answers[i].Some?
  {
    if |answers| > 0 {
      var n := |answers| - 1;
      AllAnsweredCount(answers[..n]);
      CountsBounded(answers[..n], seq(n, _ => None));
      assert forall i :: 0 <= i < n ==> answers[..n][i] == answers[i];
    }
  }

  /** Re-answering position i only changes position i's contribution to the score:
      the earlier answer there no longer counts, the new one counts if it is correct. */
  lemma {:induction false} ReanswerOverwrites(
    answers: seq<Option<int>>, memos: seq<Option<ShuffledAnswers>>, i: nat, b: int)
    requires |answers| == |memos| && i < |answers|
    ensures CorrectCount(answers[i := Some(b)], memos) + (if CorrectAt(answers[i], memos[i]) then 1 else 0)
         == CorrectCount(answers, memos) + (if CorrectAt(Some(b), memos[i]) then 1 else 0)
  {
    var n := |answers| - 1;
    var updated := answers[i := Some(b)];
    if i < n {
      assert updated[..n] == answers[..n][i := Some(b)];
      ReanswerOverwrites(answers[..n], memos[..n], i, b);
    } else {
      assert updated[..n] == answers[..n];
    }
  }

  /** Three questions whose authored answers are options 1, 0 and 2, shown in authored
      order and answered with options 1, 0 and 0: two are correct, 67 percent. */
  lemma IdentityOrderScore(options: seq<string>)
    requires |options| == 3
    ensures var memos := [
        Some(ShuffledAnswers(Tagged(options), 1)),
        Some(ShuffledAnswers(Tagged(options), 0)),
        Some(ShuffledAnswers(Tagged(options), 2))];
      && CorrectCount([Some(1), Some(0), Some(0)], memos) == 2
      && RoundPercent(2, 3) == Some(67)
  {
    var memos: seq<Option<ShuffledAnswers>> := [
      Some(ShuffledAnswers(Tagged(options), 1)),
      Some(ShuffledAnswers(Tagged(options), 0)),
      Some(ShuffledAnswers(Tagged(options), 2))];
    var answers: seq<Option<int>> := [Some(1), Some(0), Some(0)];
    assert answers[..2][..1] == answers[..1] && memos[..2][..1] == memos[..1];
    assert CorrectCount(answers[..1], memos[..1]) == 1 by {
      assert |answers[..1][..0]| == 0 && |memos[..1][..0]| == 0;
    }
    assert CorrectCount(answers[..2], memos[..2]) == 2;
  }

  /** A position counts as correct exactly when the chosen display index maps back,
      through the memo, to the question's authored correct option. */
  predicate CorrectInOriginalOrder(q: Question, answer: Option<int>, memo: Option<ShuffledAnswers>)
  {
    && answer.Some? && memo.Some?
    && 0 <= answer.value < |memo.value.options|
    && memo.value.options[answer.value].originalIndex == q.correctAnswer
  }

  function OriginalOrderCount(qs: seq<Question>, answers: seq<Option<int>>, memos: seq<Option<ShuffledAnswers>>): nat
    requires |qs| == |answers| == |memos|
  {
    if |qs| == 0 then 0
    else
      var n := |qs| - 1;
      OriginalOrderCount(qs[..n], answers[..n], memos[..n])
        + (if CorrectInOriginalOrder(qs[n], answers[n], memos[n]) then 1 else 0)
  }

  /** The positions that the session's state can hold: every answer was given on a
      displayed question and is one of its display positions, and every memo is well formed. */
  ghost predicate AnswersOnMemos(qs: seq<Question>, answers: seq<Option<int>>, memos: seq<Option<ShuffledAnswers>>)
    requires |qs| == |answers| == |memos|
  {
    && (forall i :: 0 <= i < |qs| && memos[i].Some? ==> WellFormedMemo(qs[i], memos[i].value))
    && (forall i :: 0 <= i < |qs| && answers[i].Some? ==>
          memos[i].Some? && 0 <= answers[i].value < |qs[i].options|)
  }

  /** Scoring against the display-order correct index is the same as scoring the
      chosen options against the authored correctAnswer. */
  lemma {:induction false} ScoreMapsBack(qs: seq<Question>, answers: seq<Option<int>>, memos: seq<Option<ShuffledAnswers>>)
    requires |qs| == |answers| == |memos|
    requires AnswersOnMemos(qs, answers, memos)
    ensures CorrectCount(answers, memos) == OriginalOrderCount(qs, answers, memos)
  {
    if |qs| > 0 {
      var n := |qs| - 1;
      assert AnswersOnMemos(qs[..n], answers[..n], memos[..n]) by {
        forall i | 0 <= i < n
          ensures qs[..n][i] == qs[i] && answers[..n][i] == answers[i] && memos[..n][i] == memos[i]
        {
        }
      }
      ScoreMapsBack(qs[..n], answers[..n], memos[..n]);
      if answers[n].Some? {
        MemoKeyMapsBack(qs[n], memos[n].value);
      }
    }
  }

  class QuestionManager {
    var currentQuestions: seq<Question>
    var currentQuestionIndex: int
    var userAnswers: seq<Option<int>>
    var questionStates: seq<QuestionState>
    var visitedQuestions: set<int>
    var shuffledAnswers: seq<Option<ShuffledAnswers>>

    /** The session invariant: one entry per question in each per-position array, the
        cursor on a question (or 0 for an empty list), visited positions in range, the
        state array agreeing with the answers, and only well-formed memos. */
    ghost predicate Valid()
      reads this
    {
      && |userAnswers| == |currentQuestions|
      && |questionStates| == |currentQuestions|
      && |shuffledAnswers| == |currentQuestions|
      && 0 <= currentQuestionIndex
      && (currentQuestionIndex < |currentQuestions| || currentQuestionIndex == 0)
      && (forall i :: i in visitedQuestions ==> 0 <= i < |currentQuestions|)
      && (forall i :: 0 <= i < |currentQuestions| ==>
            (questionStates[i] == Answered <==> userAnswers[i].Some?))
      && AnswersOnMemos(currentQuestions, userAnswers, shuffledAnswers)
    }

    constructor ()
      ensures Valid()
      ensures currentQuestions == [] && currentQuestionIndex == 0
      ensures userAnswers == [] && questionStates == [] && shuffledAnswers == []
      ensures visitedQuestions == {}
    {
      currentQuestions := [];
      currentQuestionIndex := 0;
      userAnswers := [];
      questionStates := [];
      visitedQuestions := {};
      shuffledAnswers := [];
    }

    /** Starts a run on `questions`, whatever the previous state was. */
    method InitializeQuestionState(questions: seq<Question>)
      modifies this
      ensures Valid()
      ensures currentQuestions == questions && currentQuestionIndex == 0
      ensures userAnswers == seq(|questions|, _ => None)
      ensures questionStates == seq(|questions|, _ => Unanswered)
      ensures visitedQuestions == {}
      ensures shuffledAnswers == seq(|questions|, _ => None)
    {
      currentQuestions := questions;
      currentQuestionIndex := 0;
      userAnswers := seq(|questions|, _ => None);
      questionStates := seq(|questions|, _ => Unanswered);
      visitedQuestions := {};
      shuffledAnswers := seq(|questions|, _ => None);
    }

    method SetQuestions(questions: seq<Question>)
      modifies this
      ensures Valid()
      ensures currentQuestions == questions && currentQuestionIndex == 0
      ensures userAnswers == seq(|questions|, _ => None)
      ensures questionStates == seq(|questions|, _ => Unanswered)
      ensures visitedQuestions == {}
      ensures shuffledAnswers == seq(|questions|, _ => None)
    {
      InitializeQuestionState(questions);
    }

    /** Shows the question under the cursor: false and no change once the cursor is
        past the list; otherwise the cursor joins the visited set and the option order
        is memoised on first display. */
    method DisplayQuestion(rnd: nat -> real) returns (shown: bool)
      requires Valid() && Utils.UnitDraws(rnd)
      modifies this
      ensures Valid()
      ensures shown <==> old(currentQuestionIndex) < |currentQuestions|
      ensures currentQuestions == old(currentQuestions)
      ensures currentQuestionIndex == old(currentQuestionIndex)
      ensures userAnswers == old(userAnswers) && questionStates == old(questionStates)
      ensures !shown ==> visitedQuestions == old(visitedQuestions) && shuffledAnswers == old(shuffledAnswers)
      ensures shown ==> visitedQuestions == old(visitedQuestions) + {currentQuestionIndex}
      ensures shown ==>
        shuffledAnswers == AfterDisplay(old(shuffledAnswers), currentQuestionIndex,
                                        currentQuestions[currentQuestionIndex], rnd)
    {
      if currentQuestionIndex >= |currentQuestions| {
        return false;
      }
      visitedQuestions := visitedQuestions + {currentQuestionIndex};
      var _ := DisplayAnswers(rnd);
      return true;
    }

    /** The memoisation in displayAnswers: the order is shuffled only while the slot is
        empty, and otherwise the stored options and correct index are reused unchanged.
        Returns the options shown and the correct index written back to the question. */
    method DisplayAnswers(rnd: nat -> real) returns (shown: ShuffledAnswers)
      requires Valid() && Utils.UnitDraws(rnd)
      requires currentQuestionIndex < |currentQuestions|
      modifies this`shuffledAnswers
      ensures Valid()
      ensures shuffledAnswers[currentQuestionIndex] == Some(shown)
      ensures old(shuffledAnswers[currentQuestionIndex]).Some? ==>
        shown == old(shuffledAnswers[currentQuestionIndex].value)
      ensures old(shuffledAnswers[currentQuestionIndex]).None? ==>
        shown == Memo(currentQuestions[currentQuestionIndex], rnd)
      ensures shuffledAnswers == old(shuffledAnswers)[currentQuestionIndex := Some(shown)]
      ensures WellFormedMemo(currentQuestions[currentQuestionIndex], shown)
    {
      var question := currentQuestions[currentQuestionIndex];
      if shuffledAnswers[currentQuestionIndex].None? {
        var shuffledOptions := Utils.ShuffleArray(Tagged(question.options), rnd);
        var newCorrectIndex := FindIndex(shuffledOptions, question.correctAnswer);
        shown := ShuffledAnswers(shuffledOptions, newCorrectIndex);
        MemoWellFormed(question, rnd);
        shuffledAnswers := shuffledAnswers[currentQuestionIndex := Some(shown)];
      } else {
        shown := shuffledAnswers[currentQuestionIndex].value;
      }
    }

    /** Records `answerIndex` (a display position of the current question) as the
        answer, overwriting any earlier one, and marks the position answered. */
    method SelectAnswer(answerIndex: int)
      requires Valid()
      requires currentQuestionIndex < |currentQuestions|
      requires shuffledAnswers[currentQuestionIndex].Some?
      requires 0 <= answerIndex < |currentQuestions[currentQuestionIndex].options|
      modifies this`userAnswers, this`questionStates
      ensures Valid()
      ensures userAnswers == old(userAnswers)[currentQuestionIndex := Some(answerIndex)]
      ensures questionStates == old(questionStates)[currentQuestionIndex := Answered]
    {
      userAnswers := userAnswers[currentQuestionIndex := Some(answerIndex)];
      questionStates := questionStates[currentQuestionIndex := Answered];
    }

    /** Jumps to `index` when it names a question, marking the old position visited. */
    method GoToQuestion(index: int) returns (moved: bool)
      requires Valid()
      modifies this`currentQuestionIndex, this`visitedQuestions
      ensures Valid()
      ensures moved <==> 0 <= index < |currentQuestions|
      ensures moved ==> (currentQuestionIndex == index
        && visitedQuestions == old(visitedQuestions) + {old(currentQuestionIndex)})
      ensures !moved ==> (currentQuestionIndex == old(currentQuestionIndex)
        && visitedQuestions == old(visitedQuestions))
    {
      if 0 <= index < |currentQuestions| {
        visitedQuestions := visitedQuestions + {currentQuestionIndex};
        currentQuestionIndex := index;
        return true;
      }
      return false;
    }

    /** Advances the cursor unless it is on the last question. */
    method NextQuestion() returns (moved: bool)
      requires Valid()
      modifies this`currentQuestionIndex
      ensures Valid()
      ensures moved <==> old(currentQuestionIndex) < |currentQuestions| - 1
      ensures currentQuestionIndex == if moved then old(currentQuestionIndex) + 1 else old(currentQuestionIndex)
    {
      if currentQuestionIndex < |currentQuestions| - 1 {
        currentQuestionIndex := currentQuestionIndex + 1;
        return true;
      }
      return false;
    }

    /** Moves the cursor back unless it is on the first question. */
    method PrevQuestion() returns (moved: bool)
      requires Valid()
      modifies this`currentQuestionIndex
      ensures Valid()
      ensures moved <==> old(currentQuestionIndex) > 0
      ensures currentQuestionIndex == if moved then old(currentQuestionIndex) - 1 else old(currentQuestionIndex)
    {
      if currentQuestionIndex > 0 {
        currentQuestionIndex := currentQuestionIndex - 1;
        return true;
      }
      return false;
    }

    /** getTestStats: counts the positions whose answer equals their correct display
        index; unanswered positions count as incorrect. */
    method GetTestStats() returns (stats: TestStats)
      requires Valid()
      ensures stats.totalQuestions == |currentQuestions|
      ensures stats.correctAnswers == CorrectCount(userAnswers, shuffledAnswers)
      ensures stats.correctAnswers == OriginalOrderCount(currentQuestions, userAnswers, shuffledAnswers)
      ensures stats.incorrectAnswers == stats.totalQuestions - stats.correctAnswers
      ensures stats.answeredQuestions == AnsweredCount(userAnswers)
      ensures stats.correctAnswers <= stats.answeredQuestions <= stats.totalQuestions
      ensures stats.percentage == RoundPercent(stats.correctAnswers, stats.totalQuestions)
      ensures stats.percentage.Some? <==> stats.totalQuestions > 0
      ensures stats.percentage.Some? ==> 0 <= stats.percentage.value <= 100
    {
      var totalQuestions := |currentQuestions|;
      var correctAnswers := 0;
      var i := 0;
      while i < totalQuestions
        invariant 0 <= i <= totalQuestions
        invariant correctAnswers == CorrectCount(userAnswers[..i], shuffledAnswers[..i])
      {
        var userAnswer := userAnswers[i];
        if userAnswer.Some? && shuffledAnswers[i].Some? && userAnswer.value == shuffledAnswers[i].value.correctAnswerIndex {
          correctAnswers := correctAnswers + 1;
        }
        assert userAnswers[..i + 1][..i] == userAnswers[..i];
        assert shuffledAnswers[..i + 1][..i] == shuffledAnswers[..i];
        i := i + 1;
      }
      assert userAnswers[..totalQuestions] == userAnswers;
      assert shuffledAnswers[..totalQuestions] == shuffledAnswers;
      CountsBounded(userAnswers, shuffledAnswers);
      ScoreMapsBack(currentQuestions, userAnswers, shuffledAnswers);
      var percentage := RoundPercent(correctAnswers, totalQuestions);
      if totalQuestions > 0 {
        RoundPercentNearest(correctAnswers, totalQuestions);
      }
      stats := TestStats(totalQuestions, correctAnswers, totalQuestions - correctAnswers,
        percentage, AnsweredCount(userAnswers));
    }

    /** `userAnswers.every(answer => answer !== undefined)`. */
    function IsTestComplete(): (complete: bool)
      reads this
      ensures complete <==> AnsweredCount(userAnswers) == |userAnswers|
    {
      AllAnsweredCount(userAnswers);
      forall i | 0 <= i < |userAnswers| :: userAnswers[i].Some?
    }

    /** Empties the session. */
    method Reset()
      modifies this
      ensures Valid()
      ensures currentQuestions == [] && currentQuestionIndex == 0
      ensures userAnswers == [] && questionStates == [] && shuffledAnswers == []
      ensures visitedQuestions == {}
    {
      currentQuestions := [];
      currentQuestionIndex := 0;
      userAnswers := [];
      questionStates := [];
      visitedQuestions := {};
      shuffledAnswers := [];
    }
  }
}
