/**
 * The browser handle `BrowserDriver` keeps in its static field `mDriver`:
 * `getCurrentDriver` creates it on first use through `initDriver`, `close`
 * quits it, and `waitForPageLoad` polls the page's `document.readyState`.
 */
module DriverSession {
  import opened Wrappers
  import opened JavaText

  /** A live browser session. */
  datatype Handle = Handle(id: nat)

  /**
   * How one run of `initDriver` goes. `LeavesNoDriver`: it returns without
   * assigning a driver (no known target, or no known browser). `FailsEarly`:
   * it throws before a driver is assigned. `Starts`: a driver is assigned;
   * when `failsAfter`, something later throws (maximising the window, say)
   * and the recovery `quit()` succeeds exactly when `quitSucceeds`.
   */
  datatype InitRun =
    | LeavesNoDriver
    | FailsEarly
    | Starts(handle: Handle, failsAfter: bool, quitSucceeds: bool)

  /** Why `getCurrentDriver` throws. */
  datatype DriverError =
    | InitRaised            // `initDriver` threw; `handleException` wraps it
    | InitializationFailed  // "Browser Driver Initialization failed.."

  /** The field after `getCurrentDriver`, and what it returns or throws. */
  datatype Acquired = Acquired(driver: Option<Handle>, result: Result<Handle, DriverError>)

  /** `getCurrentDriver` as a function of the field before the call and of how `initDriver` would go. */
  function Acquire(driver: Option<Handle>, init: InitRun): (a: Acquired)
    ensures a.result.Success? ==> a.driver == Some(a.result.value)
    ensures driver.Some? ==> a == Acquired(driver, Success(driver.value))
  {
    if driver.Some? then Acquired(driver, Success(driver.value))
    else match init
      case LeavesNoDriver => Acquired(None, Failure(InitializationFailed))
      case FailsEarly => Acquired(None, Failure(InitRaised))
      case Starts(h, failsAfter, quitSucceeds) =>
        if !failsAfter then Acquired(Some(h), Success(h))
        else if quitSucceeds then Acquired(None, Failure(InitRaised))
        else Acquired(Some(h), Failure(InitRaised))
  }

  /** The field after `close()`, given whether `quit()` would succeed. */
  function CloseStep(driver: Option<Handle>, quitSucceeds: bool): (d: Option<Handle>)
    ensures d.None? <==> driver.None? || quitSucceeds
    ensures d.Some? ==> d == driver
  {
    if driver.None? then None
    else if quitSucceeds then None
    else driver
  }

  /** An existing handle is returned as it is: `initDriver` does not run again. */
  lemma ExistingDriverReused(h: Handle, init1: InitRun, init2: InitRun)
    ensures Acquire(Some(h), init1) == Acquire(Some(h), init2) == Acquired(Some(h), Success(h))
  {
  }

  /** `getCurrentDriver` returns the handle it has stored, or throws; it never returns null. */
  lemma AcquireReturnsStoredHandle(driver: Option<Handle>, init: InitRun)
    ensures var a := Acquire(driver, init);
      a.result.Success? <==> driver.Some? || (init.Starts? && !init.failsAfter)
    ensures var a := Acquire(driver, init);
      a.result.Success? ==> a.driver == Some(a.result.value)
  {
  }

  /**
   * When the recovery `quit()` fails, the call throws but the half-started
   * handle stays in the field, and the next call returns it without
   * initialising again.
   */
  lemma HalfStartedDriverReturnedNext(h: Handle, next: InitRun)
    ensures Acquire(None, Starts(h, true, false)) == Acquired(Some(h), Failure(InitRaised))
    ensures Acquire(Acquire(None, Starts(h, true, false)).driver, next).result == Success(h)
  {
  }

  /** Closing an absent handle does nothing; after a successful `quit()` a second close does nothing either. */
  lemma CloseIdempotent(driver: Option<Handle>, q1: bool, q2: bool)
    ensures CloseStep(None, q1) == None
    ensures q1 ==> CloseStep(CloseStep(driver, q1), q2) == CloseStep(driver, q1) == None
  {
  }

  /** After a successful close, the next `getCurrentDriver` initialises a new session. */
  lemma ReopenAfterClose(driver: Option<Handle>, h: Handle)
    ensures Acquire(CloseStep(driver, true), Starts(h, false, true)) == Acquired(Some(h), Success(h))
  {
  }

  // ---------------------------------------------------------------------
  // waitForPageLoad
  // ---------------------------------------------------------------------

  /** The attempts `waitForPageLoad` makes at most. */
  const MaxReadyStateReads: nat := 20

  /** What `executeScript("return document.readyState")` gives on one attempt. */
  datatype ReadyAnswer = State(text: string) | NullState | ScriptFailed

  /** Why `waitForPageLoad` throws. */
  datatype PageLoadError =
    | NoDriver(cause: DriverError)  // `getCurrentDriver` threw
    | ScriptRaised                  // `handleException` around the script's exception
    | NullDereference                   // `equalsIgnoreCase` called on a null state

  /** The page reports it has loaded. */
  predicate Complete(state: string) {
    EqualsIgnoreCase(state, "complete")
  }

  /**
   * The `do`/`while` loop from attempt `counter` on: the number of attempts
   * made when it ends, or the exception that ends it.
   */
  function Poll(readyState: nat -> ReadyAnswer, counter: nat): (r: Result<nat, PageLoadError>)
    requires counter < MaxReadyStateReads
    ensures r.Success? ==> counter < r.value <= MaxReadyStateReads
    decreases MaxReadyStateReads - counter
  {
    match readyState(counter)
    case ScriptFailed => Failure(ScriptRaised)
    case NullState => Failure(NullDereference)
    case State(s) =>
      if !Complete(s) && counter + 1 < MaxReadyStateReads then Poll(readyState, counter + 1)
      else Success(counter + 1)
  }

  /** The polling loop of `waitForPageLoad`, once a driver is present: the number of states read. */
  method PollReadyState(readyState: nat -> ReadyAnswer) returns (r: Result<nat, PageLoadError>)
    ensures r == Poll(readyState, 0)
  {
    var state: ReadyAnswer := State("NA");
    var counter: nat := 0;
    while true
      invariant counter < MaxReadyStateReads
      invariant Poll(readyState, 0) == Poll(readyState, counter)
      decreases MaxReadyStateReads - counter
    {
      state := readyState(counter);
      if state.ScriptFailed? {
        return Failure(ScriptRaised);
      }
      counter := counter + 1;
      if state.NullState? {
        return Failure(NullDereference);
      }
      if Complete(state.text) || counter >= MaxReadyStateReads {
        return Success(counter);
      }
    }
  }

  /** The loop stops early only on a complete page: fewer than twenty reads means the last one was complete. */
  lemma {:induction false} EarlyStopMeansComplete(readyState: nat -> ReadyAnswer, counter: nat)
    requires counter < MaxReadyStateReads
    requires Poll(readyState, counter).Success? && Poll(readyState, counter).value < MaxReadyStateReads
    ensures var n := Poll(readyState, counter).value;
      readyState(n - 1).State? && Complete(readyState(n - 1).text)
    decreases MaxReadyStateReads - counter
  {
    match readyState(counter)
    case State(s) =>
      if !Complete(s) && counter + 1 < MaxReadyStateReads {
        EarlyStopMeansComplete(readyState, counter + 1);
      }
  }

  /** A page that never completes is polled twenty times, and then the call returns normally all the same. */
  lemma {:induction false} NeverCompleteReturnsAfterTwenty(readyState: nat -> ReadyAnswer, counter: nat)
    requires counter < MaxReadyStateReads
    requires forall k: nat :: readyState(k).State? && !Complete(readyState(k).text)
    ensures Poll(readyState, counter) == Success(MaxReadyStateReads)
    decreases MaxReadyStateReads - counter
  {
    if counter + 1 < MaxReadyStateReads {
      NeverCompleteReturnsAfterTwenty(readyState, counter + 1);
    }
  }

  /** A page already complete is read once. */
  lemma CompleteAtOnce(readyState: nat -> ReadyAnswer)
    requires readyState(0).State? && Complete(readyState(0).text)
    ensures Poll(readyState, 0) == Success(1)
  {
  }

  /** The state is compared ignoring case. */
  lemma CompleteIgnoresCase()
    ensures Complete("COMPLETE") && Complete("Complete") && !Complete("loading")
  {
    assert FoldChar('C') == 'c' && FoldChar('O') == 'o' && FoldChar('M') == 'm' && FoldChar('P') == 'p';
    assert FoldChar('L') == 'l' && FoldChar('E') == 'e' && FoldChar('T') == 't';
  }

  /** The static field `mDriver`. */
  class BrowserSession {
    var driver: Option<Handle>

    /** No browser has been started yet. */
    constructor()
      ensures driver == None
    {
      driver := None;
    }

    /** `getCurrentDriver()`, with `init` telling how `initDriver()` would go if it ran. */
    method GetCurrentDriver(init: InitRun) returns (result: Result<Handle, DriverError>)
      modifies this
      ensures Acquired(driver, result) == Acquire(old(driver), init)
    {
      if driver.None? {
        match init {
          case LeavesNoDriver =>
          case FailsEarly =>
            return Failure(InitRaised);
          case Starts(h, failsAfter, quitSucceeds) =>
            driver := Some(h);
            if failsAfter {
              if quitSucceeds {
                driver := None;
              }
              return Failure(InitRaised);
            }
        }
        if driver.None? {
          return Failure(InitializationFailed);
        }
      }
      return Success(driver.value);
    }

    /** `close()`: quits a present browser; an exception from `quit()` is logged and the handle kept. */
    method Close(quitSucceeds: bool)
      modifies this
      ensures driver == CloseStep(old(driver), quitSucceeds)
    {
      if driver.None? {
        // already closed
      } else if quitSucceeds {
        driver := None;
      }
    }

    /** `waitForPageLoad()`: acquire the driver, then poll the ready state. */
    method WaitForPageLoad(init: InitRun, readyState: nat -> ReadyAnswer) returns (r: Result<nat, PageLoadError>)
      modifies this
      ensures driver == Acquire(old(driver), init).driver
      ensures Acquire(old(driver), init).result.Failure? ==> r == Failure(NoDriver(Acquire(old(driver), init).result.error))
      ensures Acquire(old(driver), init).result.Success? ==> r == Poll(readyState, 0)
    {
      var acquired := GetCurrentDriver(init);
      if acquired.Failure? {
        return Failure(NoDriver(acquired.error));
      }
      r := PollReadyState(readyState);
    }
  }
}
