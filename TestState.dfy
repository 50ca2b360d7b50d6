/** The state shown next to a test in the dock, with the numeric values of the
    source enum. The dock orders states by these values, so the ordering below
    is the one aggregation uses: InProgress is the least value, Passed the
    greatest. */
module TestStates {

  datatype TestState = InProgress | Failed | Warning | Inconclusive | Skipped | NotRun | Passed
  {
    /** The enum constant's integer value. */
    function Value(): (v: nat)
      ensures v <= 6
      ensures v == 0 <==> this == InProgress
      ensures v == 6 <==> this == Passed
    {
      match this
      case InProgress => 0
      case Failed => 1
      case Warning => 2
      case Inconclusive => 3
      case Skipped => 4
      case NotRun => 5
      case Passed => 6
    }
  }

  /** `a < b` on the enum, as C# compares enum values. */
  predicate Less(a: TestState, b: TestState) {
    a.Value() < b.Value()
  }

  /** One step of the dock's fold: keep `worst` unless `candidate` is smaller. */
  function Min(worst: TestState, candidate: TestState): (r: TestState)
    ensures r == worst || r == candidate
    ensures r.Value() <= worst.Value() && r.Value() <= candidate.Value()
  {
    if Less(candidate, worst) then candidate else worst
  }

  /** The seven values are pairwise distinct. */
  lemma ValuesDistinct(a: TestState, b: TestState)
    ensures a.Value() == b.Value() <==> a == b
  {
  }

  /** `Less` is a strict total order on the seven states. */
  lemma LessIsStrictTotalOrder(a: TestState, b: TestState, c: TestState)
    ensures !Less(a, a)
    ensures Less(a, b) ==> !Less(b, a)
    ensures Less(a, b) && Less(b, c) ==> Less(a, c)
    ensures a != b ==> Less(a, b) || Less(b, a)
  {
    ValuesDistinct(a, b);
  }

  /** The enum's order, least to greatest. */
  lemma Ordering()
    ensures Less(InProgress, Failed) && Less(Failed, Warning) && Less(Warning, Inconclusive)
    ensures Less(Inconclusive, Skipped) && Less(Skipped, NotRun) && Less(NotRun, Passed)
  {
  }

  /** InProgress is below every other state, so it wins every fold step,
      even against Failed. */
  lemma InProgressIsLeast(s: TestState)
    ensures s != InProgress ==> Less(InProgress, s)
    ensures Min(s, InProgress) == InProgress && Min(InProgress, s) == InProgress
  {
  }

  /** Passed is above every other state, so it is the identity of the fold. */
  lemma PassedIsGreatest(s: TestState)
    ensures s != Passed ==> Less(s, Passed)
    ensures Min(Passed, s) == s && Min(s, Passed) == s
  {
  }

  /** Min picks the smaller of two states whichever order they come in. */
  lemma MinCommutes(a: TestState, b: TestState)
    ensures Min(a, b) == Min(b, a)
  {
    ValuesDistinct(a, b);
  }
}
