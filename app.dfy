/** js/app.js: building the working question list for each test type, the counts the
    configuration screen shows, the results title, and turning loaded deck files into
    subjects. Form fields arrive already parsed; fetch outcomes arrive as values. */
module App {

  import opened Wrappers
  import opened JsBuiltins
  import opened Deck
  import opened Utils

  datatype TestType = Sequential | Random | Errors | Timed

  /** An active quantity button of the random configuration. */
  datatype QuantityButton = AllButton | CountButton(count: nat)

  /** The configuration read when a test starts, one shape per test type. */
  datatype TestConfig =
    | SequentialConfig(rangeStart: int, rangeEnd: int)
    | RandomConfig(customQuantity: Option<int>, activeButton: Option<QuantityButton>)
    | ErrorsConfig
    | TimedConfig(timedQuantity: nat, timePerQuestion: int)

  /** How many questions a random test takes from a deck of n: a positive custom value,
      else the active button ("all" is the whole deck), else 15; never more than n. */
  function RandomQuantity(customQuantity: Option<int>, activeButton: Option<QuantityButton>, n: nat): (q: nat)
    ensures q <= n
    ensures customQuantity.Some? && customQuantity.value > 0 ==> q == Min(customQuantity.value, n)
    ensures !(customQuantity.Some? && customQuantity.value > 0) && activeButton == Some(AllButton) ==> q == n
    ensures (!(customQuantity.Some? && customQuantity.value > 0) && activeButton.Some?
             && activeButton.value.CountButton?) ==> q == Min(activeButton.value.count, n)
    ensures !(customQuantity.Some? && customQuantity.value > 0) && activeButton.None? ==> q == Min(15, n)
  {
    if customQuantity.Some? && customQuantity.value > 0 then Min(customQuantity.value, n)
    else if activeButton.Some? then
      match activeButton.value
      case AllButton => n
      case CountButton(c) => Min(c, n)
    else Min(15, n)
  }

  /** startConfiguredTest's choice of working list. */
  function SelectQuestions(deck: seq<Question>, config: TestConfig, rnd: nat -> real): seq<Question>
    requires UnitDraws(rnd)
  {
    match config
    case SequentialConfig(rangeStart, rangeEnd) => Slice(deck, rangeStart - 1, rangeEnd)
    case RandomConfig(custom, button) => Slice(Shuffle(deck, rnd), 0, RandomQuantity(custom, button, |deck|))
    case ErrorsConfig => Shuffle(deck, rnd)
    case TimedConfig(timedQuantity, _) => Slice(Shuffle(deck, rnd), 0, timedQuantity)
  }

  /** A sequential test is the contiguous run from question rangeStart to question
      rangeEnd (1-based, inclusive) in deck order, cut at the end of the deck; it is
      empty when the range is empty. */
  lemma SequentialSelection(deck: seq<Question>, rangeStart: int, rangeEnd: int, rnd: nat -> real)
    requires UnitDraws(rnd) && 1 <= rangeStart && 0 <= rangeEnd
    ensures var r := SelectQuestions(deck, SequentialConfig(rangeStart, rangeEnd), rnd);
      && |r| == Max(0, Min(rangeEnd, |deck|) - (rangeStart - 1))
      && r == (if rangeStart - 1 < Min(rangeEnd, |deck|) then deck[rangeStart - 1..Min(rangeEnd, |deck|)] else [])
  {
    SliceNonNegative(deck, rangeStart - 1, rangeEnd);
  }

  /** The prefix of the shuffled deck a random or timed test takes: exactly the
      requested count (cut at the deck size), each deck question at most as often as
      in the deck, and no question twice when the deck has none twice. */
  lemma ShuffledPrefix(deck: seq<Question>, count: nat, rnd: nat -> real)
    requires UnitDraws(rnd)
    ensures var r := Slice(Shuffle(deck, rnd), 0, count);
      && |r| == Min(count, |deck|)
      && r == Shuffle(deck, rnd)[..Min(count, |deck|)]
      && multiset(r) <= multiset(deck)
      && (Distinct(deck) ==> Distinct(r))
  {
    var s := Shuffle(deck, rnd);
    ShufflePermutes(deck, rnd);
    SliceNonNegative(s, 0, count);
    var k := Min(count, |deck|);
    assert Slice(s, 0, count) == s[..k];
    PrefixSubMultiset(s, k);
    if Distinct(deck) {
      ShuffleKeepsDistinct(deck, rnd);
    }
  }

  /** A random test has RandomQuantity questions drawn without repetition from the deck. */
  lemma RandomSelection(deck: seq<Question>, custom: Option<int>, button: Option<QuantityButton>, rnd: nat -> real)
    requires UnitDraws(rnd)
    ensures var r := SelectQuestions(deck, RandomConfig(custom, button), rnd);
      && |r| == RandomQuantity(custom, button, |deck|)
      && r == Shuffle(deck, rnd)[..|r|]
      && multiset(r) <= multiset(deck)
      && (Distinct(deck) ==> Distinct(r))
  {
    ShuffledPrefix(deck, RandomQuantity(custom, button, |deck|), rnd);
  }

  /** A custom count of at least the deck size takes every deck question exactly once. */
  lemma RandomTakesWholeDeck(deck: seq<Question>, custom: int, button: Option<QuantityButton>, rnd: nat -> real)
    requires UnitDraws(rnd) && custom > 0 && custom >= |deck|
    ensures var r := SelectQuestions(deck, RandomConfig(Some(custom), button), rnd);
      |r| == |deck| && multiset(r) == multiset(deck)
  {
    RandomSelection(deck, Some(custom), button, rnd);
    ShufflePermutes(deck, rnd);
    assert Shuffle(deck, rnd)[..|deck|] == Shuffle(deck, rnd);
  }

  /** An errors test is the whole deck in shuffled order. */
  lemma ErrorsSelection(deck: seq<Question>, rnd: nat -> real)
    requires UnitDraws(rnd)
    ensures var r := SelectQuestions(deck, ErrorsConfig, rnd);
      |r| == |deck| && multiset(r) == multiset(deck)
  {
    ShufflePermutes(deck, rnd);
  }

  /** A timed test is a prefix of the shuffled deck of at most the chosen size. */
  lemma TimedSelection(deck: seq<Question>, timedQuantity: nat, timePerQuestion: int, rnd: nat -> real)
    requires UnitDraws(rnd)
    ensures var r := SelectQuestions(deck, TimedConfig(timedQuantity, timePerQuestion), rnd);
      && |r| == Min(timedQuantity, |deck|)
      && r == Shuffle(deck, rnd)[..|r|]
      && multiset(r) <= multiset(deck)
  {
    ShuffledPrefix(deck, timedQuantity, rnd);
  }

  /** prepareTest: deck order for a sequential test, a shuffled copy otherwise. */
  function PrepareTest(deck: seq<Question>, testType: TestType, rnd: nat -> real): seq<Question>
    requires UnitDraws(rnd)
  {
    if testType == Sequential then deck else Shuffle(deck, rnd)
  }

  /** Every test type prepares a permutation of the deck; a sequential one keeps its order. */
  lemma PrepareTestPermutes(deck: seq<Question>, testType: TestType, rnd: nat -> real)
    requires UnitDraws(rnd)
    ensures |PrepareTest(deck, testType, rnd)| == |deck|
    ensures multiset(PrepareTest(deck, testType, rnd)) == multiset(deck)
    ensures testType == Sequential ==> PrepareTest(deck, testType, rnd) == deck
  {
    ShufflePermutes(deck, rnd);
  }

  /** updateCount: the sequential count shown, which only changes when start <= end. */
  function UpdateCount(rangeStart: int, rangeEnd: int, shown: int): (count: int)
    ensures rangeStart <= rangeEnd ==> count >= 1
    ensures rangeStart > rangeEnd ==> count == shown
  {
    if rangeStart <= rangeEnd then rangeEnd - rangeStart + 1 else shown
  }

  /** Within the deck the count shown is the length of the list the test will use. */
  lemma CountMatchesSelection(deck: seq<Question>, rangeStart: int, rangeEnd: int, shown: int, rnd: nat -> real)
    requires UnitDraws(rnd) && 1 <= rangeStart <= rangeEnd <= |deck|
    ensures UpdateCount(rangeStart, rangeEnd, shown) == |SelectQuestions(deck, SequentialConfig(rangeStart, rangeEnd), rnd)|
  {
    SequentialSelection(deck, rangeStart, rangeEnd, rnd);
  }

  /** The question counts the timed configuration can offer. */
  const TimedChoices: seq<nat> := [5, 10, 15, 20]

  /** The elements of xs not above n, in their order. */
  function AtMost(xs: seq<nat>, n: nat): (r: seq<nat>)
    ensures forall x :: x in r <==> x in xs && x <= n
    ensures |r| <= |xs|
    ensures (forall a, b :: 0 <= a < b < |xs| ==> xs[a] < xs[b]) ==>
      forall a, b :: 0 <= a < b < |r| ==> r[a] < r[b]
  {
    if xs == [] then []
    else
      var rest := AtMost(xs[1..], n);
      assert forall a :: 0 <= a < |rest| ==> rest[a] in xs[1..];
      assert (forall a, b :: 0 <= a < b < |xs| ==> xs[a] < xs[b]) ==>
        forall k :: 0 <= k < |xs[1..]| ==> xs[0] < xs[1..][k];
      (if xs[0] <= n then [xs[0]] else []) + rest
  }

  /** The timed options offered for a deck of n questions: the choices not above n,
      in increasing order. */
  function TimedOptions(n: nat): (r: seq<nat>)
    ensures forall x :: x in r <==> x in TimedChoices && x <= n
    ensures forall a, b :: 0 <= a < b < |r| ==> r[a] < r[b]
  {
    AtMost(TimedChoices, n)
  }

  /** The select's initial value: 10 when it is offered, otherwise the first option,
      and nothing when the deck has fewer than 5 questions. */
  function DefaultTimedQuantity(n: nat): (q: Option<nat>)
    ensures q.Some? <==> n >= 5
    ensures q.Some? ==> q.value in TimedOptions(n) && q.value <= n
    ensures n >= 10 ==> q == Some(10)
  {
    var options := TimedOptions(n);
    assert 5 in TimedChoices && 10 in TimedChoices;
    assert |options| > 0 ==> options[0] in options;
    if 10 in options then Some(10)
    else if |options| > 0 then Some(options[0])
    else None
  }

  /** updateTotalTime's text: whole minutes, a colon, two-digit seconds. */
  function TotalTimeText(questions: nat, timePerQuestion: nat): string
  {
    var totalSeconds := questions * timePerQuestion;
    NatToString(totalSeconds / 60) + ":" + PadStart(NatToString(totalSeconds % 60), 2, '0')
  }

  /** The total time text reads back as minutes and exactly two digits of seconds below
      60, together the number of questions times the seconds per question. */
  lemma TotalTimeReadsBack(questions: nat, timePerQuestion: nat)
    ensures var r := TotalTimeText(questions, timePerQuestion);
      && |r| >= 4 && r[|r| - 3] == ':'
      && AllDigits(r[..|r| - 3]) && |r[..|r| - 3]| >= 1
      && AllDigits(r[|r| - 2..])
      && DecimalValue(r[|r| - 2..]) < 60
      && DecimalValue(r[..|r| - 3]) * 60 + DecimalValue(r[|r| - 2..]) == questions * timePerQuestion
  {
    var totalSeconds := questions * timePerQuestion;
    var mm := NatToString(totalSeconds / 60);
    var ss := PadStart(NatToString(totalSeconds % 60), 2, '0');
    NatToStringReadsBack(totalSeconds / 60);
    PaddedNumeral(totalSeconds % 60, 2);
    var r := TotalTimeText(questions, timePerQuestion);
    assert r == mm + ":" + ss;
    assert |ss| == 2;
    assert r[..|r| - 3] == mm;
    assert r[|r| - 2..] == ss;
  }

  /** The results title's four grades. */
  datatype Grade = Excellent | WellDone | GoodTry | KeepPracticing

  /** displayResults' thresholds; a NaN percentage (empty test) fails every comparison. */
  function ResultsGrade(percentage: Option<int>): (g: Grade)
    ensures g == Excellent <==> percentage.Some? && percentage.value >= 80
    ensures g == WellDone <==> percentage.Some? && 60 <= percentage.value < 80
    ensures g == GoodTry <==> percentage.Some? && 50 <= percentage.value < 60
    ensures g == KeepPracticing <==> percentage.None? || percentage.value < 50
  {
    if percentage.Some? && percentage.value >= 80 then Excellent
    else if percentage.Some? && percentage.value >= 60 then WellDone
    else if percentage.Some? && percentage.value >= 50 then GoodTry
    else KeepPracticing
  }

  function GradeTitle(g: Grade): string
  {
    match g
    case Excellent => "¡Excelente trabajo!"
    case WellDone => "¡Bien hecho!"
    case GoodTry => "¡Buen intento!"
    case KeepPracticing => "¡Sigue practicando!"
  }

  function RankOfGrade(g: Grade): nat
  {
    match g
    case KeepPracticing => 0
    case GoodTry => 1
    case WellDone => 2
    case Excellent => 3
  }

  /** A higher score never earns a lower title. */
  lemma GradeMonotone(p: int, q: int)
    requires p <= q
    ensures RankOfGrade(ResultsGrade(Some(p))) <= RankOfGrade(ResultsGrade(Some(q)))
  {
  }

  /** What a deck file's JSON may carry; None is an absent property. */
  datatype SubjectData = SubjectData(
    name: Option<string>, icon: Option<string>, description: Option<string>,
    questions: Option<seq<Question>>)

  const DefaultIcon: string := "\U{1F4DA}"

  /** `str.charAt(0).toUpperCase()` on ASCII text: the empty string stays empty. */
  function CapitalisedFirst(s: string): string
  {
    if s == [] then [] else [ToUpperAscii(s[0])]
  }

  /** The subject loadSubjects pushes for a loaded file: the id is the file name with
      its first ".json" removed, and falsy name, icon and description fall back to the
      defaults built from the file name. */
  function SubjectFromFile(file: string, data: SubjectData): Subject
  {
    var id := ReplaceFirst(file, ".json", "");
    var name := OrElse(data.name, CapitalisedFirst(id) + Slice(file, 1, -5));
    Subject(
      id,
      name,
      OrElse(data.icon, DefaultIcon),
      OrElse(data.description, "Test de " + OrElse(data.name, id)),
      data.questions.GetOr([]))
  }

  /** For a file name base + ".json" whose base does not contain ".json": the id is the
      base, the default name is the base with its first letter capitalised, and the
      default description names the subject. */
  lemma SubjectFromJsonFile(base: string, data: SubjectData)
    requires forall p :: 0 <= p <= |base| ==> !OccursAt(base, ".json", p)
    ensures var s := SubjectFromFile(base + ".json", data);
      && s.id == base
      && s.name == (if Truthy(data.name) then data.name.value else CapitalisedFirst(base) + base[Min(1, |base|)..])
      && s.icon == (if Truthy(data.icon) then data.icon.value else DefaultIcon)
      && s.description == (if Truthy(data.description) then data.description.value
                           else "Test de " + (if Truthy(data.name) then data.name.value else base))
      && s.questions == (if data.questions.Some? then data.questions.value else [])
  {
    var file := base + ".json";
    StripExtension(base);
    SliceNonNegative(file, 1, |file| - 5);
    if |base| > 0 {
      assert file[1..|file| - 5] == base[1..];
    }
  }

  /** Removing the first ".json" from base + ".json" leaves base when base has none:
      the extension's dot cannot be matched by any of its letters. */
  lemma StripExtension(base: string)
    requires forall p :: 0 <= p <= |base| ==> !OccursAt(base, ".json", p)
    ensures ReplaceFirst(base + ".json", ".json", "") == base
  {
    var file := base + ".json";
    assert file[|base|] == '.';
    forall p | 0 <= p < |base|
      ensures !OccursAt(file, ".json", p)
    {
      if p + 5 <= |base| {
        assert file[p..p + 5] == base[p..p + 5];
        assert !OccursAt(base, ".json", p);
      } else {
        assert file[p..p + 5][|base| - p] == '.';
        assert ".json"[|base| - p] != '.';
      }
    }
    assert OccursAt(file, ".json", |base|) by {
      assert file[|base|..|base| + 5] == ".json";
    }
    assert IndexOf(file, ".json") == |base|;
    assert file[..|base|] == base;
    assert file[|base| + 5..] == [];
  }

  /** The deck files the application tries to load, in order. */
  const SubjectFiles: seq<string> := ["BMC_U2.json", "BMC_U2_examen.json", "FG_UD1.json", "FG_UD1_examen.json"]

  /** The subjects pushed for the files that loaded (a None outcome is a failed or
      non-ok fetch), in file order. */
  function Loaded(files: seq<string>, outcomes: seq<Option<SubjectData>>): (r: seq<Subject>)
    requires |files| == |outcomes|
    ensures |r| <= |files|
  {
    if files == [] then []
    else
      var rest := Loaded(files[..|files| - 1], outcomes[..|outcomes| - 1]);
      var last := outcomes[|outcomes| - 1];
      if last.Some? then rest + [SubjectFromFile(files[|files| - 1], last.value)] else rest
  }

  /** No subject is loaded exactly when every file failed to load. */
  lemma {:induction false} LoadedNoneIffAllFailed(files: seq<string>, outcomes: seq<Option<SubjectData>>)
    requires |files| == |outcomes|
    ensures Loaded(files, outcomes) == [] <==> forall k :: 0 <= k < |outcomes| ==> outcomes[k].None?
  {
    if files != [] {
      var n := |files| - 1;
      LoadedNoneIffAllFailed(files[..n], outcomes[..n]);
      assert forall k :: 0 <= k < n ==> outcomes[..n][k] == outcomes[k];
    }
  }

  /** Loading one more file appends its subject when it loaded and nothing otherwise. */
  lemma LoadedStep(files: seq<string>, outcomes: seq<Option<SubjectData>>, i: nat)
    requires |files| == |outcomes| && i < |files|
    ensures Loaded(files[..i + 1], outcomes[..i + 1])
      == Loaded(files[..i], outcomes[..i])
         + (if outcomes[i].Some? then [SubjectFromFile(files[i], outcomes[i].value)] else [])
  {
    assert files[..i + 1][..i] == files[..i];
    assert outcomes[..i + 1][..i] == outcomes[..i];
  }

  class TestLab {
    var subjects: seq<Subject>

    constructor ()
      ensures subjects == []
    {
      subjects := [];
    }

    /** loadSubjects: tries each of SubjectFiles in order (outcomes[k] is what the fetch
        of the k-th gave), pushes a subject for each one that loaded, and falls back to
        the built-in sample subjects when none did. Returns how many files loaded. */
    method LoadSubjects(outcomes: seq<Option<SubjectData>>, mockSubjects: seq<Subject>)
      returns (loadedCount: nat)
      requires |outcomes| == |SubjectFiles|
      modifies this`subjects
      ensures loadedCount == |Loaded(SubjectFiles, outcomes)|
      ensures loadedCount == 0 ==> subjects == mockSubjects
      ensures loadedCount > 0 ==> subjects == old(subjects) + Loaded(SubjectFiles, outcomes)
    {
      loadedCount := PushLoaded(SubjectFiles, outcomes);
      if loadedCount == 0 {
        subjects := mockSubjects;
      }
    }

    /** The loop of loadSubjects: one push per file whose fetch succeeded, in order. */
    method PushLoaded(files: seq<string>, outcomes: seq<Option<SubjectData>>) returns (loadedCount: nat)
      requires |files| == |outcomes|
      modifies this`subjects
      ensures subjects == old(subjects) + Loaded(files, outcomes)
      ensures loadedCount == |Loaded(files, outcomes)|
    {
      loadedCount := 0;
      var i := 0;
      while i < |files|
        invariant 0 <= i <= |files|
        invariant subjects == old(subjects) + Loaded(files[..i], outcomes[..i])
        invariant loadedCount == |Loaded(files[..i], outcomes[..i])|
      {
        LoadedStep(files, outcomes, i);
        if outcomes[i].Some? {
          subjects := subjects + [SubjectFromFile(files[i], outcomes[i].value)];
          loadedCount := loadedCount + 1;
        }
        i := i + 1;
      }
      assert files[..i] == files;
      assert outcomes[..i] == outcomes;
    }
  }
}
