/**
 The step indicator at the top of each form page (`updateProgressBar`). Each
 indicator element is modelled by its set of CSS classes; the update removes
 the `active` and `completed` marks from every indicator and then marks
 positions before the current step completed and the current one active.
 */
module Progress {

  const ActiveClass: string := "active"
  const CompletedClass: string := "completed"
  const Marks: set<string> := {ActiveClass, CompletedClass}

  /** A summary of an indicator's marks */
  datatype Label = Completed | Active | Unmarked

  /** The label of a set of classes. Giving `completed` precedence when both
      marks are present is a choice of this model; the script never leaves
      both on one indicator. */
  function LabelOf(classes: set<string>): Label {
    if CompletedClass in classes then Completed
    else if ActiveClass in classes then Active
    else Unmarked
  }

  /** The classes of the indicator at 1-based `stepNumber` after the update */
  function Restyle(classes: set<string>, stepNumber: int, currentStep: int): (r: set<string>)
    ensures r - Marks == classes - Marks
    ensures CompletedClass in r <==> stepNumber < currentStep
    ensures ActiveClass in r <==> stepNumber == currentStep
  {
    var unmarked := classes - Marks;
    if stepNumber < currentStep then unmarked + {CompletedClass}
    else if stepNumber == currentStep then unmarked + {ActiveClass}
    else unmarked
  }

  /** `updateProgressBar(currentStep, totalSteps)` over the indicators in page
      order. `totalSteps` defaults to 3 and is never read. */
  function UpdateProgressBar(indicators: seq<set<string>>, currentStep: int, totalSteps: int := 3)
    : (r: seq<set<string>>)
    ensures |r| == |indicators|
    ensures forall i | 0 <= i < |r| :: r[i] - Marks == indicators[i] - Marks
    ensures forall i | 0 <= i < |r| :: CompletedClass in r[i] <==> i + 1 < currentStep
    ensures forall i | 0 <= i < |r| :: ActiveClass in r[i] <==> i + 1 == currentStep
    ensures forall i | 0 <= i < |r| :: LabelOf(r[i]) == Completed <==> i + 1 < currentStep
    ensures forall i | 0 <= i < |r| :: LabelOf(r[i]) == Active <==> i + 1 == currentStep
    ensures forall i | 0 <= i < |r| :: LabelOf(r[i]) == Unmarked <==> i + 1 > currentStep
  {
    seq(|indicators|, i requires 0 <= i < |indicators| => Restyle(indicators[i], i + 1, currentStep))
  }

  /** At most one indicator is active after an update. */
  lemma AtMostOneActive(indicators: seq<set<string>>, currentStep: int, totalSteps: int, i: int, j: int)
    requires 0 <= i < |indicators| && 0 <= j < |indicators|
    requires ActiveClass in UpdateProgressBar(indicators, currentStep, totalSteps)[i]
    requires ActiveClass in UpdateProgressBar(indicators, currentStep, totalSteps)[j]
    ensures i == j
  {
  }

  /** The total step count has no effect on the result. */
  lemma IgnoresTotalSteps(indicators: seq<set<string>>, currentStep: int, t1: int, t2: int)
    ensures UpdateProgressBar(indicators, currentStep, t1) == UpdateProgressBar(indicators, currentStep, t2)
  {
  }

  /** Marks left on the indicators by an earlier update are forgotten: two
      pages that differ only in their marks look the same afterwards. */
  lemma ForgetsPriorMarks(a: seq<set<string>>, b: seq<set<string>>, currentStep: int, totalSteps: int)
    requires |a| == |b|
    requires forall i | 0 <= i < |a| :: a[i] - Marks == b[i] - Marks
    ensures UpdateProgressBar(a, currentStep, totalSteps) == UpdateProgressBar(b, currentStep, totalSteps)
  {
    var ra := UpdateProgressBar(a, currentStep, totalSteps);
    var rb := UpdateProgressBar(b, currentStep, totalSteps);
    forall i | 0 <= i < |ra| ensures ra[i] == rb[i] {
      assert ra[i] == Restyle(a[i], i + 1, currentStep);
      assert rb[i] == Restyle(b[i], i + 1, currentStep);
    }
  }

  /** Updating twice to the same step looks the same as updating once. */
  lemma UpdateIdempotent(indicators: seq<set<string>>, currentStep: int, t1: int, t2: int)
    ensures var once := UpdateProgressBar(indicators, currentStep, t1);
      UpdateProgressBar(once, currentStep, t2) == once
  {
    var once := UpdateProgressBar(indicators, currentStep, t1);
    ForgetsPriorMarks(once, indicators, currentStep, t2);
  }

  /** Step 2 of 3, whatever marks the indicators carried before: first
      completed, second active, third unmarked. */
  lemma SecondOfThree(indicators: seq<set<string>>)
    requires |indicators| == 3
    ensures var r := UpdateProgressBar(indicators, 2, 3);
      LabelOf(r[0]) == Completed && LabelOf(r[1]) == Active && LabelOf(r[2]) == Unmarked
  {
  }
}
