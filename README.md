# TestLab quiz core in Dafny

TestLab is a browser quiz application. A learner picks a subject (a deck of
multiple-choice questions), then picks a test type: sequential range, random
selection, "errors" review, or timed. The learner answers the questions one at a time
and gets a score with a title. This project models the logic under that flow and
proves properties of it:

- **Question session** (`QuestionSession`, `question_manager.dfy`)
  - State: the working question list, the cursor, and the per-position answers,
    states and memoised option orders, plus the set of visited positions.
  - The first display of a position shuffles its options once. Every later display
    reuses that order and its correct display index.
  - The score compares answers with that display index.
  - The state lives in a class with in-place updates, under a session invariant. The
    score is a counting loop proved against a recursive definition.
- **Navigation** (`Navigation`, `navigation_manager.dfy`)
  - The three-slot status grid and the previous/next button flags, as functions of
    the session.
  - The click handlers, which drive the session.
  - The flag meant to keep the previous/next click handlers from being attached twice.
- **Utilities** (`Utils`, `utils.dfy`)
  - The Fisher–Yates shuffle, a swap loop on a copied array.
  - `mm:ss` formatting.
- **Elapsed-time counter** (`Timer`, `timer_manager.dfy`): start, pause, resume, stop
  and read, with the current time as a parameter.
- **Test set-up in the application shell** (`App`, `app.dfy`)
  - The working list for each test type.
  - The counts and total time on the configuration screen, and the timed options.
  - The results title.
  - Turning loaded deck files into subjects, with the sample subjects as the fallback.
- **The earlier single-file revision** (`LegacyApp`, `legacy_app.dfy`)
  - Options in authored order, a per-question countdown whose timeout records -1, and
    scoring against the authored correct option.
  - The countdown intervals are counted: `this.timer` names at most one of them, and
    an interval whose handle is overwritten or never cleared keeps ticking.
  - Lemmas compare its scoring and titles with the later revision's.
- `Deck` declares questions and subjects. `Wrappers` has `Option`. `JsBuiltins`
  gives the JavaScript built-ins the code relies on, with their edge cases:
  - `slice` with negative and clamped bounds;
  - `padStart`, number-to-string, `indexOf`, `replace` with a string pattern;
  - truthiness.

Conventions used throughout:

- `Math.random()` is an injected function `rnd: nat -> real` whose values lie in
  [0, 1). The shuffle's k-th draw is `rnd(k)`.
- `Date.now()` is an integer parameter `now`.
- `undefined` and `null` are `None`, and a NaN percentage is `None`.
- `Math.round(correct / total * 100)` is computed exactly on rationals.

Two points of the code's behaviour that the model keeps:

- An empty session is possible: a sequential range whose start lies after its end
  gives one. Its percentage is NaN (`None`) and its title is the lowest one.
- `getTestStats` scores against `question.shuffledCorrectAnswer`, which
  `displayAnswers` writes back onto the question. The model reads it from the
  position's memo, so a position never displayed in this run has no correct index.
  An answered position has always been displayed, so nothing the code can observe
  differs.

## Model

| member | source | states |
|---|---|---|
| QuestionSession.Tagged | js/question-manager.js:92-95 | one tagged option per authored option, with its text and its authored index, in order |
| QuestionSession.FindIndex | js/question-manager.js:100-102 | the first position whose original index is the target, and -1 exactly when no position has it |
| QuestionSession.Memo | js/question-manager.js:89-108 | the option order and correct display index that displayAnswers draws for a question; MemoWellFormed states its properties |
| QuestionSession.MemoWellFormed | js/question-manager.js:89-108 | a freshly computed memo is a permutation of the tagged options with no option twice, and its correct index is where the authored correct option ended up |
| QuestionSession.MemberOfTagged | js/question-manager.js:92-95 | each shuffled option is the authored option at its original index |
| QuestionSession.MemoKeyMapsBack | js/question-manager.js:100-113 | in a stored memo the correct index is valid iff the authored correctAnswer is an option index; it then shows that option, and a display index equals it iff the option there came from correctAnswer |
| QuestionSession.CorrectCount | js/question-manager.js:279-289 | the number of positions whose answer equals the correct display index of their memo; ScoreMapsBack ties it to the authored answers, CountsBounded bounds it |
| QuestionSession.AnsweredCount | js/question-manager.js:298-300 | the number of positions holding an answer; CountsBounded and AllAnsweredCount state its bounds |
| QuestionSession.RoundPercent | js/question-manager.js:291 | Math.round of 100·correct/total, NaN for an empty test; RoundPercentNearest states the rounding |
| QuestionSession.RoundPercentNearest | js/question-manager.js:291 | the rounded percentage is the nearest integer to 100·correct/total, halves rounding up, and lies in 0..100 when correct ≤ total |
| QuestionSession.CountsBounded | js/question-manager.js:275-301 | correct answers ≤ answered questions ≤ total questions |
| QuestionSession.AllAnsweredCount | js/question-manager.js:298-306 | the answered count equals the number of positions iff every position holds an answer |
| QuestionSession.ReanswerOverwrites | js/question-manager.js:168 | answering a position again replaces its contribution to the score: the old answer stops counting and the new one counts iff it is correct |
| QuestionSession.IdentityOrderScore | js/question-manager.js:275-291 | three questions with authored answers 1, 0, 2, shown in authored order and answered 1, 0, 0, score 2 correct and 67 percent |
| QuestionSession.ScoreMapsBack | js/question-manager.js:283-287 | on any reachable session, scoring against the display index is the same as scoring the chosen options against the authored correctAnswer |
| QuestionSession.QuestionManager.constructor | js/question-manager.js:3-11 | an empty session satisfying the invariant |
| QuestionSession.QuestionManager.InitializeQuestionState | js/question-manager.js:14-21 | from any prior state: the new list, cursor 0, every position unanswered with no memo, nothing visited, and the invariant holds |
| QuestionSession.QuestionManager.SetQuestions | js/question-manager.js:24-26 | the same new state as initializeQuestionState |
| QuestionSession.AfterDisplay | js/question-manager.js:89-108 | after a display the position always has a memo: the stored one if there was one, otherwise the order Memo draws; every other position's memo is unchanged |
| QuestionSession.QuestionManager.DisplayQuestion | js/question-manager.js:29-79 | past the end: returns false and changes nothing; otherwise marks the cursor visited and memoises its option order (AfterDisplay), leaving answers, states and cursor alone |
| QuestionSession.QuestionManager.DisplayAnswers | js/question-manager.js:82-117 | a present memo is reused unchanged; an absent one becomes the shuffle of the tagged options; only the cursor's memo changes, and it is well formed |
| QuestionSession.QuestionManager.SelectAnswer | js/question-manager.js:155-169 | records the answer at the cursor, replacing any earlier one, marks the position answered, and changes nothing else |
| QuestionSession.QuestionManager.GoToQuestion | js/question-manager.js:231-240 | an index within the list: the old cursor becomes visited, the cursor moves there, and it returns true; any other index: returns false and nothing changes |
| QuestionSession.QuestionManager.NextQuestion | js/question-manager.js:243-256 | moves forward by one iff the cursor is before the last question, otherwise returns false with nothing changed |
| QuestionSession.QuestionManager.PrevQuestion | js/question-manager.js:259-272 | moves back by one iff the cursor is past the first question, otherwise returns false with nothing changed |
| QuestionSession.QuestionManager.GetTestStats | js/question-manager.js:275-302 | total; correct answers, both as answers equal to the display index and as chosen options equal to the authored answer; incorrect = total − correct, so unanswered counts as incorrect; answered count; rounded percentage in 0..100, NaN exactly for an empty list |
| QuestionSession.QuestionManager.IsTestComplete | js/question-manager.js:305-307 | true iff the answered count reaches the number of positions, which AllAnsweredCount shows means every position holds an answer |
| QuestionSession.QuestionManager.Reset | js/question-manager.js:315-322 | the empty session, satisfying the invariant |
| Utils.Pick | js/utils.js:7 | the draw floor(r·(i+1)) is an index from 0 to i |
| Utils.Shuffle | js/utils.js:4-11 | the Fisher–Yates descending swap walk for the draws rnd; ShufflePermutes and ShuffleKeepsDistinct state its properties, and ShuffleInPlace computes it |
| Utils.ShuffleArray | js/utils.js:4-11 | returns the shuffle of its input, a same-length permutation of it, computed on a fresh copy; the input sequence is a value and is not changed |
| Utils.ShuffleInPlace | js/utils.js:6-9 | the swap loop leaves the array holding the shuffle of its old contents, for the draws rnd |
| Utils.SwapInPlace | js/utils.js:8 | the array afterwards is the old one with positions i and j exchanged |
| Utils.StepsPermute | js/utils.js:6-9 | the swaps from index i down to 1 keep the length and the multiset of elements |
| Utils.ShufflePermutes | js/utils.js:4-11 | the shuffle has the input's length and the same multiset of elements |
| Utils.ShuffleKeepsDistinct | js/utils.js:4-11 | a list with no element twice stays that way when shuffled |
| Utils.FormatTime | js/utils.js:14-21 | the mm:ss text of a number of milliseconds; FormatTimeReadsBack states what it reads back to |
| Utils.FormatTimeReadsBack | js/utils.js:14-21 | the text is minutes (at least two digits), a colon, and exactly two digits of seconds below 60; minutes·60 + seconds = floor(ms/1000) |
| Navigation.SlotIndices | js/navigation-manager.js:43-47 | three slots: the current question in the middle; the previous question iff the cursor is past the first; the next question iff the cursor is before the last |
| Navigation.StatusGrid | js/navigation-manager.js:37-94 | three buttons for the session state; StatusGridSpec states what each shows |
| Navigation.StatusGridSpec | js/navigation-manager.js:37-94 | on a valid session the middle button is the current question; an end button is disabled exactly at that end of the list; enabled buttons hold valid neighbouring indices; "current" appears only in the middle; the other statuses are answered-correct iff the answer equals the display index, answered-incorrect iff answered otherwise, visited iff unanswered and visited |
| Navigation.NavigationButtons | js/navigation-manager.js:97-127 | previous is disabled iff the cursor is 0; next is disabled iff the current question is unanswered; next reads "see results" iff the cursor is on the last question and it is answered |
| Navigation.EmptySessionNeverFinishes | js/navigation-manager.js:110-127 | with no questions, next is disabled and never offers the results |
| Navigation.NavigationManager.constructor | js/navigation-manager.js:3-6 | no handlers attached and the flag clear |
| Navigation.NavigationManager.SetupNavigationEventListeners | js/navigation-manager.js:151-212 | with the flag set or the buttons missing, nothing changes; otherwise one handler is added to each button and the flag is set; it keeps "at most one handler each" |
| Navigation.NavigationManager.ResetAsWritten | js/navigation-manager.js:221-228 | clears the flag while the buttons keep their handlers |
| Navigation.NavigationManager.Reset | js/navigation-manager.js:221-228 | corrected reset: the flag still records the attached handlers, so "at most one handler each" is kept |
| Navigation.NavigationManager.HandleGridClick | js/navigation-manager.js:17-29 | a valid index moves the cursor there and displays it: the old and new positions become visited, the new one gets its memo (AfterDisplay), and answers and states are unchanged; any other index changes nothing |
| Navigation.NavigationManager.HandlePrev | js/navigation-manager.js:170-177 | iff the cursor is past the first question, moves back one and displays it: visited, memo by AfterDisplay, answers and states unchanged; otherwise nothing changes |
| Navigation.NavigationManager.HandleNext | js/navigation-manager.js:180-208 | on an answered last question the test completes; on any other answered question the cursor advances by one and the new position is displayed (visited, memo by AfterDisplay, answers and states unchanged); on an unanswered question nothing changes |
| Navigation.NavigationManager.ClickPrev | js/navigation-manager.js:170-177 | one click runs every attached handler: the cursor moves back by the number of handlers, stopping at 0; the question it lands on has a memo; answers, states and every stored memo are kept, and only positions passed over can gain one |
| Navigation.NextClicks | js/navigation-manager.js:180-208 | where one click on the next button leaves the cursor and how many handlers completed the test, when each attached handler runs in turn on the state the one before left; with no handler, nothing moves |
| Navigation.NextClicksBounded | js/navigation-manager.js:180-208 | a click never moves the cursor back, moves it at most one question per handler and never past the last question, and completes at most once per handler |
| Navigation.NextClicksSkipAnswered | js/navigation-manager.js:180-208 | with h handlers on a run of h answered questions before the last, one click moves h questions on, passing every question in between |
| Navigation.NextClicksCompleteEarly | js/navigation-manager.js:180-208 | with two handlers on the answered question before the last, the last answered too, one click moves to the last question and completes the test |
| Navigation.NextClicksCompleteRepeatedly | js/navigation-manager.js:193-197 | on the last question, answered, every attached handler calls onTestComplete |
| Navigation.NavigationManager.ClickNext | js/navigation-manager.js:180-208 | one click runs every attached handler: cursor and completions are NextClicks of the old cursor; answers and states unchanged; stored memos kept, only positions moved onto can gain one, and the landing question has one |
| Navigation.GridClickThenAnswer | js/navigation-manager.js:17-29 | a grid click displays the question it names, which can then be answered: the answer is stored there and the position has its memo |
| Navigation.RestartedPrevClickAsWritten | js/navigation-manager.js:221-228 | after a restart, a 3-question test, a jump to question 3 and one "previous" click, the cursor is on question 1 |
| Navigation.RestartedPrevClick | js/navigation-manager.js:153-156 | the same flow with the corrected reset ends on question 2 |
| Navigation.RestartedNextClickAsWritten | js/navigation-manager.js:221-228 | after a restart with reset as written, questions 1 and 2 answered and question 1 shown, one next click lands on question 3: question 2 is passed by |
| Navigation.RestartedNextClick | js/navigation-manager.js:153-156 | the same flow with the corrected reset lands on question 2 and completes nothing |
| Timer.Start | js/timer-manager.js:11-15 | startContinuousTimer's new state; StartIdempotent and ApplyConsistent state its properties |
| Timer.Pause | js/timer-manager.js:30-34 | pauseTimer's new state; PauseKeepsReading states that it freezes the reading |
| Timer.Resume | js/timer-manager.js:43-47 | resumeTimer's new state; StartIdempotent and StartPauseResumeAccumulates state its properties |
| Timer.Stop | js/timer-manager.js:50-54 | stopTimer's new state; StopReadsZero states that it reads 0 afterwards |
| Timer.Reading | js/timer-manager.js:57-62 | getCurrentTime's value; ReadingNonNegative, StepNeverDecreases and RunNeverDecreases state its properties |
| Timer.PauseKeepsReading | js/timer-manager.js:30-34 | pausing leaves the displayed time at that instant unchanged and stops the counter |
| Timer.StopReadsZero | js/timer-manager.js:50-54 | after a stop the counter is idle and reads 0 at any time |
| Timer.StartIdempotent | js/timer-manager.js:11-15 | starting or resuming a running counter changes nothing |
| Timer.StartPauseResumeAccumulates | js/timer-manager.js:11-62 | start at t0, pause at t1 and resume at t2: at t3 the counter shows (t1−t0)+(t3−t2); paused, it shows t1−t0 (0 when t0 is the falsy time 0) |
| Timer.ApplyConsistent | js/timer-manager.js:11-54 | with a clock that does not go back, every event keeps the banked time non-negative and any running interval started in the past |
| Timer.ReadingNonNegative | js/timer-manager.js:57-62 | a consistent counter never reads a negative time |
| Timer.StepNeverDecreases | js/timer-manager.js:11-62 | a start, pause or resume never makes the displayed time go down |
| Timer.RunNeverDecreases | js/timer-manager.js:11-62 | any chronological run of starts, pauses and resumes never makes the displayed time go down |
| Timer.TimerManager.constructor | js/timer-manager.js:3-8 | an idle counter with no timed-mode setting |
| Timer.TimerManager.StartContinuousTimer | js/timer-manager.js:11-15 | a no-op while running; otherwise the start time becomes now and the counter runs |
| Timer.TimerManager.PauseTimer | js/timer-manager.js:30-34 | a no-op when stopped; otherwise now − startTime is banked and the counter stops |
| Timer.TimerManager.ResumeTimer | js/timer-manager.js:43-47 | starts only when not running |
| Timer.TimerManager.StopTimer | js/timer-manager.js:50-54 | pauses, then clears the banked time and the start time: the counter is idle |
| Timer.TimerManager.GetCurrentTime | js/timer-manager.js:57-62 | 0 when startTime is falsy (null or 0); otherwise the banked time plus the running interval; never negative on a consistent counter |
| Timer.TimerManager.Reset | js/timer-manager.js:85-91 | the counter is idle |
| Timer.TimerManager.SetTimedMode | js/timer-manager.js:94-100 | records the time per question and timed mode; the counter's state is unchanged |
| App.RandomQuantity | js/app.js:517-528 | never more than the deck; a positive custom value clamped to the deck wins, then the active button ("all" is the deck), then 15 clamped to the deck |
| App.SelectQuestions | js/app.js:498-561 | the working list for each test type; SequentialSelection, RandomSelection, ErrorsSelection and TimedSelection state what each is |
| App.SequentialSelection | js/app.js:504-509 | the contiguous run from question start to question end in deck order, cut at the deck's end, of length max(0, min(end, n) − (start − 1)) |
| App.ShuffledPrefix | js/app.js:530-531 | a prefix of the shuffled deck has exactly min(count, n) questions, none more often than in the deck, and none twice if the deck has none twice |
| App.RandomSelection | js/app.js:511-532 | a random test has RandomQuantity questions, a prefix of the shuffled deck, drawn without repetition |
| App.RandomTakesWholeDeck | js/app.js:518-519 | a custom count of at least the deck size takes every deck question exactly once |
| App.ErrorsSelection | js/app.js:534-537 | an errors test is a permutation of the whole deck |
| App.TimedSelection | js/app.js:539-548 | a timed test is a prefix of the shuffled deck with min(chosen, n) questions, drawn without repetition |
| App.PrepareTest | js/app.js:563-584 | deck order for a sequential test, the shuffle otherwise; PrepareTestPermutes states that it is a permutation |
| App.PrepareTestPermutes | js/app.js:563-584 | every test type prepares a permutation of the deck; sequential keeps deck order |
| App.UpdateCount | js/app.js:426-432 | with start ≤ end the count shown is at least 1; otherwise the shown count is kept |
| App.CountMatchesSelection | js/app.js:426-432 | within the deck the count shown equals the number of questions the sequential test will use |
| App.TimedOptions | js/app.js:470-478 | exactly the choices 5, 10, 15, 20 that do not exceed the deck, in increasing order |
| App.DefaultTimedQuantity | js/app.js:470-478 | a value is selected iff the deck has at least 5 questions; it is one of the offered options, and it is 10 whenever 10 is offered |
| App.TotalTimeText | js/app.js:481-490 | the m:ss text of questions × seconds; TotalTimeReadsBack states what it reads back to |
| App.TotalTimeReadsBack | js/app.js:481-490 | the total-time text reads back as minutes, a colon and two digits of seconds below 60, together questions × seconds per question |
| App.ResultsGrade | js/app.js:630-638 | ≥ 80 excellent, 60–79 well done, 50–59 good try, below 50 or NaN keep practising |
| App.GradeMonotone | js/app.js:630-638 | a higher percentage never earns a lower title |
| App.GradeTitle | js/app.js:630-638 | the title displayResults writes for each grade; ResultsGrade decides the grade |
| App.StripExtension | js/app.js:55 | removing the first ".json" from base + ".json" gives base when base does not contain ".json" |
| App.SubjectFromFile | js/app.js:54-65 | the subject pushed for a loaded file; SubjectFromJsonFile states its id and fallbacks |
| App.SubjectFromJsonFile | js/app.js:54-65 | the id is the file name without ".json"; a falsy name, icon or description falls back to the capitalised id, the book icon and "Test de " + name-or-id; missing questions are an empty list |
| App.Loaded | js/app.js:45-67 | at most one subject per file |
| App.LoadedNoneIffAllFailed | js/app.js:45-67 | no subject is loaded exactly when every file failed to load |
| App.TestLab.constructor | js/app.js:33-96 | no subjects yet |
| App.TestLab.LoadSubjects | js/app.js:33-91 | tries the four deck files of SubjectFiles in order; returns how many loaded; with none, the subjects are the sample subjects; otherwise the loaded subjects are appended in file order |
| App.TestLab.PushLoaded | js/app.js:45-78 | the loop pushes the subjects of the files that loaded after the existing ones, in file order, and counts them |
| LegacyApp.LegacyCorrectCount | app.js:506-508 | the score never exceeds the number of questions; LegacyMatchesSession relates it to the later revision's score |
| LegacyApp.LegacyResultsGrade | app.js:525-538 | ≥ 90 excellent, 70–89 well done, 50–69 good try, below 50 or NaN keep practising |
| LegacyApp.LegacyGradeStricter | app.js:525-538 | the same percentage never earns a better title here than in the later revision; both agree below 60 and from 90 up |
| LegacyApp.ShowResults | app.js:504-538 | correct ≤ total; the percentage is NaN exactly for an empty test and otherwise lies in 0..100 |
| LegacyApp.TimeoutNeverScores | app.js:477-480 | recording -1 at an unanswered position never changes the score, provided the authored correctAnswer there is not negative |
| LegacyApp.LegacyMatchesSession | app.js:506-508 | a learner who picks the same authored options in both revisions gets the same number of correct answers |
| LegacyApp.OriginalOrderAgrees | app.js:506-508 | the legacy count equals the later revision's count of chosen options equal to the authored answer |
| LegacyApp.LegacyTestLab.constructor | app.js:2-15 | no list, cursor 0, no answers, 30 seconds per question, no handle and no interval set |
| LegacyApp.LegacyTestLab.PrepareTest | app.js:262-285 | a permutation of the deck (deck order when sequential), cursor 0, no answers, 30 seconds per question for a timed test; countdowns untouched |
| LegacyApp.LegacyTestLab.StartQuestionTimer | app.js:438-450 | the countdown restarts at the time per question, one more interval is set and the handle names it; an interval the handle named before stays set |
| LegacyApp.LegacyTestLab.StopQuestionTimer | app.js:452-457 | clears only the interval the handle names, if any, and drops the handle |
| LegacyApp.LegacyTestLab.FinishTest | app.js:498-502 | stops the countdown the handle names and shows the results of the current list and answers |
| LegacyApp.LegacyTestLab.DisplayQuestion | app.js:309-353 | at or past the end the test finishes with its results; otherwise a timed test starts a new countdown at the time per question and other tests leave the countdowns as they were |
| LegacyApp.LegacyTestLab.StartTest | app.js:296-307 | records the start time and displays the first question; an empty list finishes at once |
| LegacyApp.LegacyTestLab.SelectTestType | app.js:255-260 | remembers the type, prepares a permutation of the deck and starts the test; a countdown still set from an earlier test keeps running in a non-timed test, and a timed test adds one interval |
| LegacyApp.LegacyTestLab.BackToTestTypesAsWritten | app.js:168-170 | the back button only changes the screen: nothing in the test's state changes, so a running countdown stays set |
| LegacyApp.LegacyTestLab.BackToTestTypes | app.js:168-170 | corrected back button: stops the countdown as it leaves and keeps the one-countdown discipline (OneCountdown) |
| LegacyApp.LegacyTestLab.SelectAnswer | app.js:374-398 | stores the choice at the cursor, replacing any earlier one; a timed test stops its countdown, other tests leave countdowns as they were |
| LegacyApp.LegacyTestLab.TimeOut | app.js:474-485 | stops the countdown the handle names; writes -1 at the cursor only when there is no answer there, so an answer is never overwritten |
| LegacyApp.LegacyTestLab.Tick | app.js:443-448 | a tick of any set interval: one second less; at zero or below the cursor times out; under the one-countdown discipline a tick only happens in a timed test |
| LegacyApp.LegacyTestLab.NextQuestion | app.js:487-496 | the cursor advances by one; stepping past the last question shows the results; a timed test starts the next countdown |
| LegacyApp.LegacyTestLab.RestartTest | app.js:557-561 | the same test type again on a fresh permutation of the deck, with no answers |
| LegacyApp.StaleCountdownAsWritten | app.js:168-170 | a timed test of one question left with the back button, then a sequential test of one question: thirty ticks later the sequential question holds -1 and scores 0 |
| LegacyApp.StaleCountdownStopped | app.js:168-170 | the same flow with the corrected back button leaves no interval set and no answer recorded |

## Left out

- Everything the code does to the page is left out:
  - DOM reads and writes, classes, styles and animations;
  - the progress bar, which is floating point;
  - the question GIF;
  - answer feedback colours;
  - the icon markup of the results;
  - logging.
  
  js/screen-manager.js is not part of this model.
- `fetch` and JSON parsing are not modelled. The outcome of each file of
  `App.SubjectFiles` is an input to `App.TestLab.LoadSubjects`: its data, or a
  failure. The sample subjects are an input too, not the literal deck data.
- The outer `try` around the whole of `loadSubjects` (js/app.js:92-95) is not
  modelled. It only catches errors from the page calls that follow the loop.
- Real time and real randomness are not modelled. `Date.now()` is the `now`
  parameter and `Math.random()` is the injected `rnd`.
- `setInterval` is not modelled. The display interval of the counter only reads its
  state. A legacy countdown interval firing is the explicit `Tick` event, allowed
  whenever at least one interval is set. All set intervals run the same callback on
  the same object, so which one fires is not modelled, only how many are set.
- `parseInt` on form fields, and the NaN it gives for an empty timed select, are not
  modelled. Form values arrive as integers. The quantity buttons carry natural numbers.
- Floating point is not modelled. `Math.round(correct / total * 100)` is computed
  exactly. Double rounding could differ from the exact value only where
  100·correct/total lies within one rounding error of a half.
- `App.SubjectFromJsonFile`: `toUpperCase` is modelled on ASCII letters only. Other
  first letters keep their case in the model.
- `QuestionSession.QuestionManager.DisplayQuestion`: `question.shuffledCorrectAnswer`
  is read from the position's memo, not from a property on a shared question object.
  Aliasing between question objects is therefore not modelled: the same object twice
  in one list, or a value left over from an earlier run.
- `App.SequentialSelection`: its lemma assumes the range fields hold 1 or more and 0
  or more. Other values follow the general `JsBuiltins.Slice` semantics, which the
  selection itself uses.
- The wiring in js/app.js is not modelled beyond the session builder:
  `startTest`, `finishTest`, `restartTest`, screen changes and the `onAnswerSelected`
  callback. Each only calls operations modelled here.
- The `timer` handle and `isRunning` of the counter are modelled only through the
  counter's state. `getFormattedCurrentTime` is `Utils.FormatTime` of the reading.
- In the legacy file:
  - `showResults` formats its duration text with `formatTime` (app.js:550-555). That
    function is the same arithmetic as `Utils.FormatTime`, so
    `Utils.FormatTimeReadsBack` covers it. The clock reading it formats is left out.
  - `showExplanation`, `updateTimerDisplay` and its colour changes are page updates
    and are not modelled.
- `Timer.StepNeverDecreases` and `Timer.RunNeverDecreases` assume positive clock
  readings. A start at the falsy time 0 makes `getCurrentTime` read 0, which
  `Timer.StartPauseResumeAccumulates` shows.
- LegacyApp.LegacyCorrectCount: counts over the list's positions only, so an answer
  recorded at key `currentQuestions.length` is ignored. The legacy `reduce` would throw
  on that key instead, because `currentQuestions[index]` is undefined there. The model
  lets that key be reached: a stale interval's `TimeOut` after the test finished writes
  -1 there. The exception is not modelled.

## Findings

| source | as written | input that shows it | evidently intended | confidence | as-written member | corrected member |
|---|---|---|---|---|---|---|
| js/navigation-manager.js:221-228 | `reset` clears `eventListenersSetup`, but the previous and next buttons are not rebuilt and keep their click handlers, so the next `setupNavigationEventListeners` attaches a second handler to each | finish a test, restart, start a 3-question test, jump to question 3, click "previous" once: both handlers run and the cursor lands on question 1 | each button keeps exactly one handler, and one click moves one question | medium, not executed; the buttons' markup is not part of this model | Navigation.RestartedPrevClickAsWritten | Navigation.RestartedPrevClick |
| js/navigation-manager.js:221-228 | the same duplicate handler on the next button: each click runs the next handler twice, the second on the state the first left | finish a test, restart, start a 3-question test, answer questions 1 and 2, go back to question 1 and click "next" once: the cursor lands on question 3 and question 2 is passed by; with question 3 answered too, a click on question 2 finishes the test | one click moves on one question or finishes once | medium, not executed; the buttons' markup is not part of this model | Navigation.RestartedNextClickAsWritten | Navigation.RestartedNextClick |
| app.js:168-170 | the `back-to-test-types` button only changes the screen, so a timed test's countdown interval stays set; `selectTestType` (app.js:255-260) starts the next test with it running | take a timed test of one question, go back, start a sequential test of one question and wait thirty seconds: the old interval's `timeOut` writes -1 at the sequential question, which scores 0 | leaving a test stops its countdown, so a countdown only ever runs on an open question of a timed test | medium, not executed; the page markup, and so where the back button is shown, is not part of this model | LegacyApp.StaleCountdownAsWritten | LegacyApp.StaleCountdownStopped |

In the model, `Navigation.NavigationManager.ResetAsWritten` is the code as written.
`Navigation.NavigationManager.Reset` is the correction: it keeps the flag, so
`SetupNavigationEventListeners` and `Reset` both preserve "at most one handler per
button" (`ListenersOnce`). The next button's duplicate handler is not harmless
either. Both handlers run the same code, and the second one sees the state the first
left. When the question the first one advanced to is already answered, the second
advances again (`NextClicksSkipAnswered`). When that question is the last one, the
second calls `onTestComplete` instead, so one click from the question before the last
ends the test (`NextClicksCompleteEarly`). When the click starts on the answered last question, `onTestComplete`
runs once per handler (`NextClicksCompleteRepeatedly`).

For the legacy countdown, `LegacyApp.LegacyTestLab.BackToTestTypesAsWritten` is the
button as written, and `LegacyApp.LegacyTestLab.BackToTestTypes` the correction.
`OneCountdown` says that only the interval the handle names is set, and only in a
timed test while an unanswered question is shown. The correction keeps it, and so do
every other method and a test-type choice made with no countdown running. A timed test
left with its countdown running breaks it in two more ways. The next timed test
overwrites the handle, so two intervals make the time run twice as fast. After that,
`stopQuestionTimer` can clear only one of them.
