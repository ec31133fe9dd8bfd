/**
 * The wait budget of `BrowserDriver`: `waitForElementToBePresent` turns the
 * milliseconds spent waiting for presence into whole seconds and returns what
 * is left of the timeout, and each "present, then refine" wait starts its
 * second wait with exactly that leftover, or raises when nothing is left.
 */
module WaitBudget {
  import opened JavaText

  /**
   * Whole seconds spent, as `waitForElementToBePresent` computes them: more
   * than half a second and less than one counts as one, anything else is the
   * truncating `elapsed / 1000` of Java's `long`.
   */
  function ElapsedSeconds(elapsedMs: int): (s: int)
    ensures 500 < elapsedMs < 1000 ==> s == 1
    ensures 0 <= elapsedMs <= 500 ==> s == 0
    ensures elapsedMs >= 1000 ==> 1000 * s <= elapsedMs < 1000 * s + 1000
    ensures elapsedMs < 0 ==> 1000 * s - 1000 < elapsedMs <= 1000 * s <= 0
  {
    if 500 < elapsedMs < 1000 then 1 else JavaDivThousand(elapsedMs)
  }

  /** The budget left after `elapsedMs`: nothing once the whole seconds spent reach the timeout. */
  function TimeLeft(timeout: int, elapsedMs: int): (left: int)
    ensures left >= 0
    ensures left == 0 <==> ElapsedSeconds(elapsedMs) >= timeout
    ensures left > 0 ==> left + ElapsedSeconds(elapsedMs) == timeout
  {
    var spent := ElapsedSeconds(elapsedMs);
    if spent >= timeout then 0 else timeout - spent
  }

  /** Waiting longer never counts as fewer whole seconds. */
  lemma ElapsedMonotone(a: int, b: int)
    requires a <= b
    ensures ElapsedSeconds(a) <= ElapsedSeconds(b)
  {
    if 500 < a < 1000 && b >= 1000 {
      assert ElapsedSeconds(b) >= 1;
    }
  }

  /** The budget left never grows as more time passes. */
  lemma TimeLeftNonIncreasing(timeout: int, a: int, b: int)
    requires a <= b
    ensures TimeLeft(timeout, b) <= TimeLeft(timeout, a)
  {
    ElapsedMonotone(a, b);
  }

  /** With a clock that did not run backwards by a second or more, the budget left is at most the timeout. */
  lemma TimeLeftBounded(timeout: int, elapsedMs: int)
    requires elapsedMs > -1000
    ensures 0 <= TimeLeft(timeout, elapsedMs)
    ensures timeout > 0 ==> TimeLeft(timeout, elapsedMs) <= timeout
    ensures timeout <= 0 ==> TimeLeft(timeout, elapsedMs) == 0
  {
  }

  /** Half a second counts as nothing, anything more up to a second as one second. */
  lemma RoundingAtHalfSecond(timeout: int)
    ensures ElapsedSeconds(500) == 0 && TimeLeft(timeout, 500) == if timeout > 0 then timeout else 0
    ensures ElapsedSeconds(501) == 1 && TimeLeft(timeout, 501) == if timeout > 1 then timeout - 1 else 0
    ensures ElapsedSeconds(1999) == 1
  {
  }

  /** A clock that runs backwards two seconds leaves more budget than the timeout itself. */
  lemma ClockBackwards(timeout: int)
    requires timeout > -2
    ensures TimeLeft(timeout, -2000) == timeout + 2
  {
  }

  // ---------------------------------------------------------------------
  // Present, then refine
  // ---------------------------------------------------------------------

  /** The six waits that first wait for presence and then for a refinement. */
  datatype Refinement =
    | Clickable              // waitForElementClickable
    | TextPresent            // waitForTextPresent
    | AttributePresent       // waitForAttributePresent
    | AttributeNotPresent    // waitForAttributeNotPresent
    | AttributeValuePresent  // waitForAttributeValuePresent
    | AttributeValueNotPresent // waitForAttributeValueNotPresent

  /** How the second wait, given its budget in seconds, ends. */
  datatype Stage = Met | TimedOut | Broke

  /** The exception a wait's own `catch` sees. */
  datatype Cause = NotPresent | Timeout | Other

  /**
   * What the caller sees: `Satisfied` (returns `true`, or returns normally),
   * `NotSatisfied` (returns `false`), or the `RuntimeException` that
   * `handleException` throws around the cause.
   */
  datatype Outcome = Satisfied | NotSatisfied | Raised(cause: Cause)

  /**
   * One present-then-refine wait. `elapsedMs` is the time the presence wait
   * took, and `stage(n)` is how the second wait ends when it is given `n`
   * seconds. Only `waitForElementClickable` swallows a timeout (returning
   * `false`); with no budget left it raises "not present", as the attribute
   * waits do, while `waitForTextPresent` raises a timeout.
   */
  function PresentThenRefine(kind: Refinement, timeout: int, elapsedMs: int, stage: nat -> Stage): (r: Outcome)
    ensures r == Satisfied <==> TimeLeft(timeout, elapsedMs) > 0 && stage(TimeLeft(timeout, elapsedMs)) == Met
    ensures r == NotSatisfied <==>
      kind == Clickable && TimeLeft(timeout, elapsedMs) > 0 && stage(TimeLeft(timeout, elapsedMs)) == TimedOut
    ensures TimeLeft(timeout, elapsedMs) == 0 ==> r.Raised?
  {
    var left := TimeLeft(timeout, elapsedMs);
    if left > 0 then
      match stage(left)
      case Met => Satisfied
      case TimedOut => if kind == Clickable then NotSatisfied else Raised(Timeout)
      case Broke => Raised(Other)
    else if kind == TextPresent then Raised(Timeout)
    else Raised(NotPresent)
  }

  /** The second wait is given exactly the budget left: oracles that agree there give the same outcome. */
  lemma SecondWaitSeesOnlyTimeLeft(kind: Refinement, timeout: int, elapsedMs: int, s1: nat -> Stage, s2: nat -> Stage)
    requires TimeLeft(timeout, elapsedMs) > 0 ==> s1(TimeLeft(timeout, elapsedMs)) == s2(TimeLeft(timeout, elapsedMs))
    ensures PresentThenRefine(kind, timeout, elapsedMs, s1) == PresentThenRefine(kind, timeout, elapsedMs, s2)
  {
  }

  /** With the budget spent, no second wait starts: every refinement raises, whatever it would have found. */
  lemma SpentBudgetRaises(kind: Refinement, timeout: int, elapsedMs: int, stage: nat -> Stage)
    requires ElapsedSeconds(elapsedMs) >= timeout
    ensures PresentThenRefine(kind, timeout, elapsedMs, stage) ==
      if kind == TextPresent then Raised(Timeout) else Raised(NotPresent)
  {
  }

  /** Only the clickable wait ever reports a refinement that failed without raising; it never raises a timeout. */
  lemma ClickableSwallowsTimeout(kind: Refinement, timeout: int, elapsedMs: int, stage: nat -> Stage)
    ensures kind == Clickable ==> PresentThenRefine(kind, timeout, elapsedMs, stage) != Raised(Timeout)
    ensures kind != Clickable ==> PresentThenRefine(kind, timeout, elapsedMs, stage) != NotSatisfied
  {
  }

  /** A second wait that succeeds within some budget also succeeds within any larger one. */
  ghost predicate MonotoneStage(stage: nat -> Stage) {
    forall a: nat, b: nat :: a <= b && stage(a) == Met ==> stage(b) == Met
  }

  /**
   * When more time for the second wait never hurts, a presence wait that
   * took longer never turns a failure into a success.
   */
  lemma SlowerPresenceNeverHelps(kind: Refinement, timeout: int, fast: int, slow: int, stage: nat -> Stage)
    requires fast <= slow && MonotoneStage(stage)
    requires PresentThenRefine(kind, timeout, slow, stage) == Satisfied
    ensures PresentThenRefine(kind, timeout, fast, stage) == Satisfied
  {
    TimeLeftNonIncreasing(timeout, fast, slow);
    var a: nat := TimeLeft(timeout, slow);
    var b: nat := TimeLeft(timeout, fast);
    assert stage(a) == Met;
    assert stage(b) == Met;
  }
}
