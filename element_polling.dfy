/**
 * `waitForElementsNotVisible`: every element the locator finds is watched in
 * turn, re-checked after each 250 ms sleep, until it is hidden or the one
 * deadline shared by all of them has passed.
 *
 * Time is a tick counter: tick `t` is the moment after the `t`-th sleep of
 * the whole call, `elapsed(t)` the milliseconds since the start time read at
 * its beginning, and `visible(e, t)` what `isElementVisible(e)` answers then.
 */
module ElementPolling {
  import opened Wrappers
  import opened JavaText

  /** Each sleep lasts at least its 250 ms. */
  ghost predicate ClockAdvances(elapsed: nat -> int) {
    forall t: nat :: elapsed(t) >= 250 * t
  }

  /** The deadline test after a sleep: `(currentTime - startTime) / 1000 > timeout`. */
  predicate Expired(elapsed: nat -> int, timeout: int, t: nat) {
    JavaDivThousand(elapsed(t)) > timeout
  }

  /** A bound on the sleeps of one call: four per second of the timeout, and four more. */
  function Horizon(timeout: int): nat {
    4 * (if timeout > 0 then timeout else 0) + 4
  }

  /** The first tick, and every later one before the deadline, lies before the horizon. */
  lemma BeforeHorizon(elapsed: nat -> int, timeout: int, t: nat)
    requires ClockAdvances(elapsed) && (t == 0 || !Expired(elapsed, timeout, t))
    ensures t < Horizon(timeout)
  {
  }

  /**
   * The inner `while`, entered at tick `t` with the element visible: sleep,
   * then give up if the deadline has passed, or look again. The result says
   * whether the element was still visible when the loop ended, and at which
   * tick it ended.
   */
  function Linger<E>(e: E, visible: (E, nat) -> bool, elapsed: nat -> int, timeout: int, t: nat): (r: (bool, nat))
    requires ClockAdvances(elapsed) && (t == 0 || !Expired(elapsed, timeout, t))
    ensures t < r.1 <= Horizon(timeout)
    ensures r.0 <==> Expired(elapsed, timeout, r.1)
    ensures !r.0 ==> !visible(e, r.1)
    decreases Horizon(timeout) - t
  {
    BeforeHorizon(elapsed, timeout, t);
    if Expired(elapsed, timeout, t + 1) then (true, t + 1)
    else if visible(e, t + 1) then Linger(e, visible, elapsed, timeout, t + 1)
    else (false, t + 1)
  }

  /** One element: looked at once, and watched while it stays visible. */
  function Watch<E>(e: E, visible: (E, nat) -> bool, elapsed: nat -> int, timeout: int, t: nat): (r: (bool, nat))
    requires ClockAdvances(elapsed) && (t == 0 || !Expired(elapsed, timeout, t))
    ensures t <= r.1 <= Horizon(timeout)
    ensures r.0 ==> Expired(elapsed, timeout, r.1)
    ensures !r.0 ==> !visible(e, r.1) && (r.1 == 0 || !Expired(elapsed, timeout, r.1))
  {
    if visible(e, t) then Linger(e, visible, elapsed, timeout, t) else (false, t)
  }

  /**
   * The `for` loop from element `i` on, at tick `t`: the index of the first
   * element still visible at the deadline, if any, and the tick it stopped at.
   */
  function Sweep<E>(elements: seq<E>, visible: (E, nat) -> bool, elapsed: nat -> int, timeout: int, i: nat, t: nat): (r: (Option<nat>, nat))
    requires i <= |elements|
    requires ClockAdvances(elapsed) && (t == 0 || !Expired(elapsed, timeout, t))
    ensures t <= r.1 <= Horizon(timeout)
    ensures r.0.Some? ==> i <= r.0.value < |elements| && Expired(elapsed, timeout, r.1)
    ensures r.0.None? ==> r.1 == 0 || !Expired(elapsed, timeout, r.1)
    decreases |elements| - i
  {
    if i == |elements| then (None, t)
    else
      var w := Watch(elements[i], visible, elapsed, timeout, t);
      if w.0 then (Some(i), w.1)
      else Sweep(elements, visible, elapsed, timeout, i + 1, w.1)
  }

  /** While an element is watched, every check finds it visible and the deadline has not passed. */
  lemma {:induction false} LingerVisibleThroughout<E>(e: E, visible: (E, nat) -> bool, elapsed: nat -> int, timeout: int, t: nat)
    requires ClockAdvances(elapsed) && (t == 0 || !Expired(elapsed, timeout, t))
    ensures var r := Linger(e, visible, elapsed, timeout, t);
      forall k :: t < k < r.1 ==> visible(e, k) && !Expired(elapsed, timeout, k)
    decreases Horizon(timeout) - t
  {
    BeforeHorizon(elapsed, timeout, t);
    if !Expired(elapsed, timeout, t + 1) && visible(e, t + 1) {
      LingerVisibleThroughout(e, visible, elapsed, timeout, t + 1);
    }
  }

  /** An element left visible was visible at every check from the first look to the deadline. */
  lemma WatchVisibleThroughout<E>(e: E, visible: (E, nat) -> bool, elapsed: nat -> int, timeout: int, t: nat)
    requires ClockAdvances(elapsed) && (t == 0 || !Expired(elapsed, timeout, t))
    ensures var r := Watch(e, visible, elapsed, timeout, t);
      r.0 ==> forall k :: t <= k < r.1 ==> visible(e, k)
  {
    if visible(e, t) {
      LingerVisibleThroughout(e, visible, elapsed, timeout, t);
    }
  }

  /**
   * The body of the `for` loop for one element, entered at tick `t`: look,
   * then sleep and look again while it is visible and the deadline has not
   * passed. Returns the last answer and the tick reached.
   */
  method WatchElement<E>(e: E, visible: (E, nat) -> bool, elapsed: nat -> int, timeout: int, t0: nat)
    returns (isVisible: bool, t: nat)
    requires ClockAdvances(elapsed) && (t0 == 0 || !Expired(elapsed, timeout, t0))
    ensures (isVisible, t) == Watch(e, visible, elapsed, timeout, t0)
  {
    t := t0;
    isVisible := visible(e, t);
    while isVisible
      invariant t == 0 || !Expired(elapsed, timeout, t)
      invariant isVisible ==> Watch(e, visible, elapsed, timeout, t0) == Linger(e, visible, elapsed, timeout, t)
      invariant !isVisible ==> Watch(e, visible, elapsed, timeout, t0) == (false, t)
      decreases Horizon(timeout) - t
    {
      BeforeHorizon(elapsed, timeout, t);
      t := t + 1;
      if JavaDivThousand(elapsed(t)) > timeout {
        break;
      }
      isVisible := visible(e, t);
    }
  }

  /** Why `waitForElementsNotVisible` throws instead of answering. */
  datatype PollingError =
    | FindElementsRaised  // `mDriver.findElements` threw (no session, a dead driver); `handleException` rethrows it

  /**
   * `waitForElementsNotVisible(locator, timeout)`. `found` is what
   * `findElements(locator)` gives: the elements found, or `None` when the
   * driver call threw, which `handleException` turns into a `RuntimeException`.
   * Otherwise the answer is `true` when every element was seen hidden before
   * the deadline.
   */
  method WaitForElementsNotVisible<E>(found: Option<seq<E>>, visible: (E, nat) -> bool, elapsed: nat -> int, timeout: int)
    returns (r: Result<bool, PollingError>)
    requires ClockAdvances(elapsed)
    ensures found.None? <==> r == Failure(FindElementsRaised)
    ensures found.Some? ==> r.Success? && (r.value <==> Sweep(found.value, visible, elapsed, timeout, 0, 0).0.None?)
    ensures found == Some([]) ==> r == Success(true)
  {
    if found.None? {
      return Failure(FindElementsRaised);
    }
    var elements := found.value;
    var isVisible := false;
    var t: nat := 0;
    var i := 0;
    while i < |elements|
      invariant 0 <= i <= |elements|
      invariant t == 0 || !Expired(elapsed, timeout, t)
      invariant Sweep(elements, visible, elapsed, timeout, 0, 0) == Sweep(elements, visible, elapsed, timeout, i, t)
      invariant !isVisible
    {
      isVisible, t := WatchElement(elements[i], visible, elapsed, timeout, t);
      if isVisible {
        break;
      }
      i := i + 1;
    }
    return Success(!isVisible);
  }

  /** Some check up to tick `h` found `e` hidden. */
  ghost predicate SeenHidden<E>(e: E, visible: (E, nat) -> bool, h: nat) {
    exists k: nat :: k <= h && !visible(e, k)
  }

  /** When every element was seen hidden, each element had a check that found it hidden. */
  lemma {:induction false} NotVisibleMeansEachSeenHidden<E>(elements: seq<E>, visible: (E, nat) -> bool, elapsed: nat -> int, timeout: int, i: nat, t: nat)
    requires i <= |elements|
    requires ClockAdvances(elapsed) && (t == 0 || !Expired(elapsed, timeout, t))
    requires Sweep(elements, visible, elapsed, timeout, i, t).0.None?
    ensures forall j :: i <= j < |elements| ==> SeenHidden(elements[j], visible, Horizon(timeout))
    decreases |elements| - i
  {
    if i < |elements| {
      var w := Watch(elements[i], visible, elapsed, timeout, t);
      NotVisibleMeansEachSeenHidden(elements, visible, elapsed, timeout, i + 1, w.1);
      var k: nat := w.1;
      assert k <= Horizon(timeout) && !visible(elements[i], k);
    }
  }

  /** An element that stays visible throughout makes the call answer `false`, at it or at an earlier one. */
  lemma {:induction false} AlwaysVisibleFails<E>(elements: seq<E>, visible: (E, nat) -> bool, elapsed: nat -> int, timeout: int, i: nat, t: nat, j: nat)
    requires i <= j < |elements|
    requires ClockAdvances(elapsed) && (t == 0 || !Expired(elapsed, timeout, t))
    requires forall k: nat :: visible(elements[j], k)
    ensures Sweep(elements, visible, elapsed, timeout, i, t).0.Some?
    ensures Sweep(elements, visible, elapsed, timeout, i, t).0.value <= j
    decreases j - i
  {
    var w := Watch(elements[i], visible, elapsed, timeout, t);
    if !w.0 && i < j {
      AlwaysVisibleFails(elements, visible, elapsed, timeout, i + 1, w.1, j);
    }
  }

  /** When every element is hidden at every check, the call answers `true` without sleeping. */
  lemma {:induction false} AllHiddenSucceeds<E>(elements: seq<E>, visible: (E, nat) -> bool, elapsed: nat -> int, timeout: int, i: nat)
    requires i <= |elements|
    requires ClockAdvances(elapsed)
    requires forall e, k: nat :: !visible(e, k)
    ensures Sweep(elements, visible, elapsed, timeout, i, 0) == (None, 0)
    decreases |elements| - i
  {
    if i < |elements| {
      AllHiddenSucceeds(elements, visible, elapsed, timeout, i + 1);
    }
  }

  /**
   * Only elements before the first one left visible are looked at: changing
   * what the elements after it would show does not change the answer.
   */
  lemma {:induction false} LaterElementsIgnored<E>(elements: seq<E>, more: seq<E>, visible: (E, nat) -> bool, elapsed: nat -> int, timeout: int, i: nat, t: nat)
    requires i <= |elements|
    requires ClockAdvances(elapsed) && (t == 0 || !Expired(elapsed, timeout, t))
    requires Sweep(elements, visible, elapsed, timeout, i, t).0.Some?
    ensures Sweep(elements + more, visible, elapsed, timeout, i, t) == Sweep(elements, visible, elapsed, timeout, i, t)
    decreases |elements| - i
  {
    assert (elements + more)[i] == elements[i];
    var w := Watch(elements[i], visible, elapsed, timeout, t);
    if !w.0 {
      LaterElementsIgnored(elements, more, visible, elapsed, timeout, i + 1, w.1);
    }
  }
}
