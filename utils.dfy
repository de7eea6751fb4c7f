/** Utils.shuffleArray and Utils.formatTime (js/utils.js). The random source is
    injected: `rnd(k)` is the value the k-th call to Math.random would return. */
module Utils {

  import opened JsBuiltins

  /** Math.random's contract: every draw lies in [0, 1). */
  ghost predicate UnitDraws(rnd: nat -> real)
  {
    forall k: nat :: 0.0 <= rnd(k) < 1.0
  }

  /** `Math.floor(r * (i + 1))`: the partner index chosen for position i. */
  function Pick(r: real, i: nat): (j: nat)
    requires 0.0 <= r < 1.0
    ensures j <= i
  {
    PickBounds(r, i);
    (r * (i + 1) as real).Floor
  }

  lemma PickBounds(r: real, i: nat)
    requires 0.0 <= r < 1.0
    ensures 0 <= (r * (i + 1) as real).Floor <= i
  {
    var m := (i + 1) as real;
    var x := r * m;
    assert x < m;
    var f := x.Floor;
    assert f as real <= x;
  }

  /** The destructuring swap `[s[i], s[j]] = [s[j], s[i]]`. */
  function Swap<T>(s: seq<T>, i: nat, j: nat): (r: seq<T>)
    requires i < |s| && j < |s|
  {
    s[i := s[j]][j := s[i]]
  }

  /** The loop of shuffleArray from index i down to 1, on the working copy `s`.
      Step i uses draw number |s| - 1 - i, as the loop calls Math.random once per step. */
  function ShuffleSteps<T>(s: seq<T>, rnd: nat -> real, i: nat): seq<T>
    requires UnitDraws(rnd)
    requires i < |s|
    decreases i
  {
    if i == 0 then s
    else ShuffleSteps(Swap(s, i, Pick(rnd(|s| - 1 - i), i)), rnd, i - 1)
  }

  /** What shuffleArray returns for `array` and the draws `rnd`. */
  function Shuffle<T>(items: seq<T>, rnd: nat -> real): seq<T>
    requires UnitDraws(rnd)
  {
    if |items| == 0 then [] else ShuffleSteps(items, rnd, |items| - 1)
  }

  /** shuffleArray: copies the argument into a fresh array, shuffles the copy in place
      and returns it. */
  method ShuffleArray<T>(items: seq<T>, rnd: nat -> real) returns (r: seq<T>)
    requires UnitDraws(rnd)
    ensures r == Shuffle(items, rnd)
    ensures |r| == |items| && multiset(r) == multiset(items)
  {
    var shuffled := new T[|items|](k requires 0 <= k < |items| => items[k]);
    assert shuffled[..] == items;
    ShuffleInPlace(shuffled, rnd);
    r := shuffled[..];
    ShufflePermutes(items, rnd);
  }

  /** The Fisher-Yates loop of shuffleArray on the working copy: i from length-1 down
      to 1, each time swapping with some j in [0, i]. */
  method ShuffleInPlace<T>(a: array<T>, rnd: nat -> real)
    requires UnitDraws(rnd)
    modifies a
    ensures a[..] == Shuffle(old(a[..]), rnd)
  {
    var n := a.Length;
    if n == 0 {
      return;
    }
    var i := n - 1;
    ghost var target := ShuffleSteps(a[..], rnd, n - 1);
    while i > 0
      invariant 0 <= i < n
      invariant ShuffleSteps(a[..], rnd, i) == target
    {
      ghost var before := a[..];
      var j := Pick(rnd(n - 1 - i), i);
      StepUnfolds(before, rnd, i);
      SwapInPlace(a, i, j);
      i := i - 1;
    }
  }

  /** One destructuring swap on the working copy. */
  method SwapInPlace<T>(a: array<T>, i: nat, j: nat)
    requires i < a.Length && j < a.Length
    modifies a
    ensures a[..] == Swap(old(a[..]), i, j)
  {
    var tmp := a[i];
    a[i] := a[j];
    a[j] := tmp;
  }

  lemma StepUnfolds<T>(s: seq<T>, rnd: nat -> real, i: nat)
    requires UnitDraws(rnd) && 0 < i < |s|
    ensures ShuffleSteps(s, rnd, i) == ShuffleSteps(Swap(s, i, Pick(rnd(|s| - 1 - i), i)), rnd, i - 1)
  {
  }

  lemma SwapPermutes<T>(s: seq<T>, i: nat, j: nat)
    requires i < |s| && j < |s|
    ensures |Swap(s, i, j)| == |s|
    ensures multiset(Swap(s, i, j)) == multiset(s)
  {
    var t := s[i := s[j]];
    assert multiset(t) == multiset(s) - multiset{s[i]} + multiset{s[j]};
  }

  lemma {:induction false} StepsPermute<T>(s: seq<T>, rnd: nat -> real, i: nat)
    requires UnitDraws(rnd) && i < |s|
    decreases i
    ensures |ShuffleSteps(s, rnd, i)| == |s|
    ensures multiset(ShuffleSteps(s, rnd, i)) == multiset(s)
  {
    if i > 0 {
      var j := Pick(rnd(|s| - 1 - i), i);
      SwapPermutes(s, i, j);
      StepsPermute(Swap(s, i, j), rnd, i - 1);
    }
  }

  /** The shuffle returns a permutation of its input: same length, same multiset. */
  lemma ShufflePermutes<T>(items: seq<T>, rnd: nat -> real)
    requires UnitDraws(rnd)
    ensures |Shuffle(items, rnd)| == |items|
    ensures multiset(Shuffle(items, rnd)) == multiset(items)
  {
    if |items| > 0 {
      StepsPermute(items, rnd, |items| - 1);
    }
  }

  /** No element occurs twice. */
  predicate Distinct<T(==)>(s: seq<T>)
  {
    forall a, b :: 0 <= a < b < |s| ==> s[a] != s[b]
  }

  lemma {:induction false} StepsKeepDistinct<T>(s: seq<T>, rnd: nat -> real, i: nat)
    requires UnitDraws(rnd) && i < |s| && Distinct(s)
    ensures Distinct(ShuffleSteps(s, rnd, i))
    decreases i
  {
    if i > 0 {
      var j := Pick(rnd(|s| - 1 - i), i);
      var t := Swap(s, i, j);
      forall a, b | 0 <= a < b < |t| ensures t[a] != t[b] {
        var a' := if a == i then j else if a == j then i else a;
        var b' := if b == i then j else if b == j then i else b;
        assert t[a] == s[a'] && t[b] == s[b'];
      }
      StepsKeepDistinct(t, rnd, i - 1);
    }
  }

  /** Shuffling a sequence without repetitions gives one without repetitions. */
  lemma ShuffleKeepsDistinct<T>(items: seq<T>, rnd: nat -> real)
    requires UnitDraws(rnd) && Distinct(items)
    ensures Distinct(Shuffle(items, rnd))
  {
    if |items| > 0 {
      StepsKeepDistinct(items, rnd, |items| - 1);
    }
  }

  /** formatTime: "mm:ss" for a non-negative number of milliseconds. */
  function FormatTime(milliseconds: nat): string
  {
    var totalSeconds := milliseconds / 1000;
    var minutes := totalSeconds / 60;
    var seconds := totalSeconds % 60;
    PadStart(NatToString(minutes), 2, '0') + ":" + PadStart(NatToString(seconds), 2, '0')
  }

  /** The text formatTime produces reads back as whole minutes (at least two digits), a
      colon and exactly two digits of seconds below 60, together floor(ms / 1000) seconds. */
  lemma FormatTimeReadsBack(milliseconds: nat)
    ensures var r := FormatTime(milliseconds);
      && |r| >= 5 && r[|r| - 3] == ':'
      && AllDigits(r[..|r| - 3]) && |r[..|r| - 3]| >= 2
      && AllDigits(r[|r| - 2..])
      && DecimalValue(r[|r| - 2..]) < 60
      && DecimalValue(r[..|r| - 3]) * 60 + DecimalValue(r[|r| - 2..]) == milliseconds / 1000
  {
    var totalSeconds := milliseconds / 1000;
    var mm := PadStart(NatToString(totalSeconds / 60), 2, '0');
    var ss := PadStart(NatToString(totalSeconds % 60), 2, '0');
    PaddedNumeral(totalSeconds / 60, 2);
    PaddedNumeral(totalSeconds % 60, 2);
    var r := FormatTime(milliseconds);
    assert r == mm + ":" + ss;
    assert |ss| == 2;
    assert r[..|r| - 3] == mm;
    assert r[|r| - 2..] == ss;
  }
}
