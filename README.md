# A verified model of the Selenium helper layer

This project models the core of a Java helper library for Selenium browser
tests. The library has two classes.

- `BrowserDriver` keeps one browser session in a static field. It parses the
  compact locator language (`id=...`, `link=...*`, bare `//xpath`) and turns
  Selenium `By` objects back into that language. It waits for elements within
  a time budget, checks drop-down selections, and polls the page's ready
  state.
- `GridFactory` cleans a list of Selenium grid hub URLs, adds default
  capabilities to every browser request, and tries the hubs in rounds until
  one delivers a remote driver.

The model is split into these modules:

| module | file | what it covers |
|---|---|---|
| `Wrappers` | `wrappers.dfy` | `Option` and `Result` |
| `JavaText` | `java_text.dfy` | Java's `indexOf`, `startsWith`, `endsWith`, `contains`, `trim`, `toLowerCase`, `equalsIgnoreCase` and truncating `long` division |
| `Locators` | `locators.dfy` | `getBy`, `getByLocator`, `getWebElementLocator` |
| `WaitBudget` | `wait_budget.dfy` | `waitForElementToBePresent` and the six waits that first wait for presence and then for something more |
| `ElementPolling` | `element_polling.dfy` | `waitForElementsNotVisible` |
| `DropDowns` | `drop_downs.dfy` | `validateDropDownSelectedOptions` |
| `DriverSession` | `driver_session.dfy` | the static `mDriver`: `getCurrentDriver`, `initDriver`'s effect on it, `close`, `waitForPageLoad` |
| `Grid` | `grid_factory.dfy` | `GridFactory`: both constructors, `validateAndCleanHubList`, `addDefaultCapabilities`, `getBrowser`, `getWebDriverHubURL`, `getDriverFromFuture` |

The model replaces everything outside the program with parameters:

- The clock becomes a tick counter: `elapsed(t)` is the milliseconds spent at
  tick `t`.
- What the browser answers becomes oracle functions: visibility, ready state,
  and the outcome of each wait.
- URL validity becomes `parse: string -> Option<Url>`.
- The outcome of each remote-driver attempt becomes
  `attempt(round, hub, capabilities)`.
- The environment variable `BUILD_TAG` and the host-name lookup become
  `Option<string>` arguments.

Mutable state is modelled as classes:

- `DriverSession.BrowserSession` holds `mDriver`.
- `Grid.GridFactory` holds the static fields `listOfHub`,
  `defaultCapabilities` and `currentHub`.

Loops in the source are `while` loops in the model. Each is proved equal to a
specification function: a recursive one for the polling, attribute and ready-state
loops, and the quantified predicates `IsTrimmedEntry` and `AllSelectedExpected`
for the two drop-down loops. The properties are then proved about those
specification functions.

Where the source's own comments promise something the code does not do, the
model follows the code:

- **`getBrowser` throws instead of returning null.** Its Javadoc
  (`GridFactory.java:146`) says "If problem return null". The code
  (`GridFactory.java:155-157`) throws a `GridFactoryException` when no hub
  delivers a driver.
- **The failure message is off by one.** The message at `GridFactory.java:157`
  says "3 attempts", but `getWebDriverHubURL` (`GridFactory.java:166-181`)
  runs four rounds (`count` 0 to 3).
- **Clickable waits do not always return a verdict.** The Javadoc of
  `waitForElementClickable` (`BrowserDriver.java:1189-1196`) says it returns
  whether the element is clickable. It returns `false` only when its second
  wait times out. When the presence wait used up the whole budget, it raises
  "not present" (`BrowserDriver.java:1224-1236`).
- **The documented bare xpath is rejected.** This is the first finding below.

Other behaviours the model makes explicit, where the names or shape of the
code suggest otherwise:

- **Hub attempts do not race.** The code submits each attempt to a thread pool
  and picks a result with `findAny`, which suggests the hubs are tried in
  parallel. The stream is sequential, so the hubs of one round are tried one
  after another. The round stops at the first hub that delivers, and later hubs
  are not tried in that round.
- **Defaults override the caller.** `capabilities.merge(defaultCapabilities)`
  lets the defaults win over the caller's own values.
- **`close()` can keep the handle.** When `quit()` throws, `close()` logs the
  exception and keeps the handle.
- **`waitForPageLoad` can fail on a null state.** When the script returns
  `null`, the loop calls `equalsIgnoreCase` on `null` and throws.

## Model

| member | source | states |
|---|---|---|
| JavaText.StartsWith | src/main/java/com/zipongo/qa/selenium/commons/BrowserDriver.java:2048 | `s.startsWith(p)`: `p` is the first `p`-length part of `s`; no contract of its own, used by `Locators.GetBy` and described by `Locators.GetByWithoutEquals` |
| JavaText.EndsWith | src/main/java/com/zipongo/qa/selenium/commons/BrowserDriver.java:2032 | `s.endsWith(p)`: `p` is the last `p`-length part of `s`; no contract of its own, used by `Locators.Keyed` and described by `Locators.LinkStarIsPartialLink` |
| JavaText.Contains | src/main/java/com/zipongo/qa/selenium/commons/BrowserDriver.java:2322 | `s.contains(t)`; no contract of its own, described by `ContainsIffOccurs` and used by `DropDowns.ValidateDropDownSelectedOptions` |
| JavaText.ContainsIffOccurs | src/main/java/com/zipongo/qa/selenium/commons/BrowserDriver.java:2322 | `contains` holds exactly when `t` occurs at some position of `s`, in both directions, the empty `t` included |
| JavaText.Trim | src/main/java/com/zipongo/qa/selenium/commons/BrowserDriver.java:2341 | `s.trim()`; no contract of its own, described by `TrimEnds`, `TrimIdentity` and `TrimLeadingBlank` |
| JavaText.LowerCase | src/main/java/com/zipongo/qa/selenium/commons/BrowserDriver.java:2025 | `s.toLowerCase()`; no contract of its own beyond a length bound, described by `LowerCaseAppend`, `LowerCaseIdentity` and `LowerCaseOneCapital` |
| JavaText.EqualsIgnoreCase | src/main/java/com/zipongo/qa/selenium/commons/BrowserDriver.java:2901 | `a.equalsIgnoreCase(b)`; no contract of its own, described by `DriverSession.CompleteIgnoresCase` and `Locators.FirstMatch` |
| JavaText.IndexOf | src/main/java/com/zipongo/qa/selenium/commons/BrowserDriver.java:2022 | the first position of the character, -1 exactly when it does not occur, and no occurrence before the answer |
| JavaText.IndexOfPrefix | src/main/java/com/zipongo/qa/selenium/commons/BrowserDriver.java:2022 | the first `=` of `key + "=" + value` is at the length of `key` when `key` has none |
| JavaText.TrimEnds | src/main/java/com/zipongo/qa/selenium/commons/BrowserDriver.java:3150 | a trimmed text neither starts nor ends with a character up to U+0020 |
| JavaText.TrimIdentity | src/main/java/com/zipongo/qa/selenium/commons/BrowserDriver.java:2341 | a text with non-blank ends is its own trim |
| JavaText.TrimLeadingBlank | src/main/java/com/zipongo/qa/selenium/commons/BrowserDriver.java:3150 | a leading blank never survives `trim()` |
| JavaText.LowerCaseAppend | src/main/java/com/zipongo/qa/selenium/commons/BrowserDriver.java:2025 | `toLowerCase` distributes over concatenation |
| JavaText.LowerCaseIdentity | src/main/java/com/zipongo/qa/selenium/commons/BrowserDriver.java:2025 | a text without capitals is its own lower case |
| JavaText.LowerCaseOneCapital | src/main/java/com/zipongo/qa/selenium/commons/BrowserDriver.java:2025 | lower-casing folds exactly the one capital letter of a word |
| JavaText.JavaDivThousand | src/main/java/com/zipongo/qa/selenium/commons/BrowserDriver.java:1373 | `a / 1000` on `long` truncates toward zero, for negative and non-negative `a` |
| Locators.KeyStrategy | src/main/java/com/zipongo/qa/selenium/commons/BrowserDriver.java:2026-2046 | the key table of `getBy`; no contract of its own, described by `CanonicalKeyFacts`, `KeyedOwnKind` and `KeyedLinkKindUnknown` |
| Locators.Keyed | src/main/java/com/zipongo/qa/selenium/commons/BrowserDriver.java:2024-2047 | the keyed branch of `getBy`; no contract of its own, described by `GetByKeyValue`, `GetByUnknownKey` and `LinkStarIsPartialLink` |
| Locators.GetBy | src/main/java/com/zipongo/qa/selenium/commons/BrowserDriver.java:2017-2055 | `getBy` itself; no contract of its own, described by `GetBySplit`, `GetByKeyValue`, `GetByWithoutEquals`, `GetByUnknownKey`, `GetByIgnoresKeyCase` and `RenderRoundTrip` |
| Locators.GetBySplit | src/main/java/com/zipongo/qa/selenium/commons/BrowserDriver.java:2017-2055 | `getBy` splits at the first `=`, lower-cases the key and keeps the rest, later `=` included, as the value |
| Locators.GetByKeyValue | src/main/java/com/zipongo/qa/selenium/commons/BrowserDriver.java:2024-2047 | each key of the table selects its strategy with the value verbatim; `link=` with a value ending in `*` selects a partial link text without the `*` |
| Locators.GetByWithoutEquals | src/main/java/com/zipongo/qa/selenium/commons/BrowserDriver.java:2048-2052 | a string without `=` is a locator exactly when it starts with `//`, and then it is an xpath of the whole string |
| Locators.GetByUnknownKey | src/main/java/com/zipongo/qa/selenium/commons/BrowserDriver.java:2024-2047 | a key outside the table yields no locator |
| Locators.GetByIgnoresKeyCase | src/main/java/com/zipongo/qa/selenium/commons/BrowserDriver.java:2025 | keys that lower-case alike select the same locator |
| Locators.RenderRoundTrip | src/main/java/com/zipongo/qa/selenium/commons/BrowserDriver.java:2017-2055 | every locator written as canonical `key=value` parses back to itself, except a link text ending in `*` |
| Locators.LinkStarIsPartialLink | src/main/java/com/zipongo/qa/selenium/commons/BrowserDriver.java:2032-2037 | `link=text*` is the partial link text `text` |
| Locators.UpperCaseIdKey | src/main/java/com/zipongo/qa/selenium/commons/BrowserDriver.java:2025-2027 | `ID=v` is the id locator `v` |
| Locators.CanonicalKeyFacts | src/main/java/com/zipongo/qa/selenium/commons/BrowserDriver.java:2027-2046 | every canonical key is lower case, has no `=` and selects its own strategy |
| Locators.GetByLocator | src/main/java/com/zipongo/qa/selenium/commons/BrowserDriver.java:3141-3156 | `getByLocator` itself; no contract of its own, described by `GetByLocatorDefined`, `PrintedByParsed` and `DescribeThenGetByLocator` |
| Locators.Describe | src/main/java/com/zipongo/qa/selenium/commons/BrowserDriver.java:3143 | Selenium's `By.toString()`, which `getByLocator` reads; no contract of its own, described by `DescribeThenGetByLocator` and `DescriptionReparsed` |
| Locators.GetByLocatorDefined | src/main/java/com/zipongo/qa/selenium/commons/BrowserDriver.java:3141-3156 | `getByLocator` answers exactly when a `.` occurs before the first `:` (both directions) |
| Locators.PrintedByParsed | src/main/java/com/zipongo/qa/selenium/commons/BrowserDriver.java:3141-3156 | on any `By.kind: value`, `getByLocator` gives `kind=` and the trimmed value |
| Locators.DescribeThenGetByLocator | src/main/java/com/zipongo/qa/selenium/commons/BrowserDriver.java:3141-3156 | a printed Selenium `By` is turned into Selenium's kind name, `=`, and its trimmed value |
| Locators.SeleniumKindLowered | src/main/java/com/zipongo/qa/selenium/commons/BrowserDriver.java:2025 | lower-casing Selenium's kind names folds only their capitals (`cssSelector` to `cssselector`, and so on) |
| Locators.KindKeyed | src/main/java/com/zipongo/qa/selenium/commons/BrowserDriver.java:2017-2047 | `getBy` reads `kind=value` with the lower-cased kind name as its key |
| Locators.KeyedOwnKind | src/main/java/com/zipongo/qa/selenium/commons/BrowserDriver.java:2026-2046 | the lowered names of id, name, xpath, cssSelector and className select their own strategy |
| Locators.KeyedLinkKindUnknown | src/main/java/com/zipongo/qa/selenium/commons/BrowserDriver.java:2026-2046 | `linktext` and `partiallinktext` are not keys |
| Locators.DescriptionReparsed | src/main/java/com/zipongo/qa/selenium/commons/BrowserDriver.java:3141-3156 | for the five non-link strategies, `getBy(getByLocator(by))` is `by` with its value trimmed |
| Locators.BareXPathWithEqualsRejected | src/main/java/com/zipongo/qa/selenium/commons/BrowserDriver.java:2010-2055 | as written: a `//` xpath that contains `=` yields no locator |
| Locators.LinkDescriptionRejected | src/main/java/com/zipongo/qa/selenium/commons/BrowserDriver.java:3141-3156 | as written: `getBy` cannot read what `getByLocator` makes of a link or partial-link `By` |
| Locators.CorrectedBareXPath | src/main/java/com/zipongo/qa/selenium/commons/BrowserDriver.java:2010-2013 | corrected: every `//` string is an xpath of the whole string |
| Locators.CorrectedExtendsGetBy | src/main/java/com/zipongo/qa/selenium/commons/BrowserDriver.java:2017-2055 | corrected parser agrees with `getBy` wherever `getBy` yields a locator |
| Locators.CorrectedKindKey | src/main/java/com/zipongo/qa/selenium/commons/BrowserDriver.java:2017-2055 | corrected parser reads every Selenium kind name as its own strategy's key |
| Locators.CorrectedDescriptionRoundTrip | src/main/java/com/zipongo/qa/selenium/commons/BrowserDriver.java:3141-3156 | corrected: every printed `By` of all seven strategies round-trips through `getByLocator`, value trimmed |
| Locators.FirstMatch | src/main/java/com/zipongo/qa/selenium/commons/BrowserDriver.java:2899-2906 | the name found equals the key ignoring case and is one of the names; no answer means none matches |
| Locators.LocatorOfAttributes | src/main/java/com/zipongo/qa/selenium/commons/BrowserDriver.java:2885-2916 | what `getWebElementLocator` computes; no contract of its own, described by `LocatorOfAttributesChoice` and `LocatorOfAttributesParses` |
| Locators.LocatorOfAttributesChoice | src/main/java/com/zipongo/qa/selenium/commons/BrowserDriver.java:2885-2916 | the locator exists exactly when some attribute is known, and comes from the first known attribute, written with the canonical lower-case name |
| Locators.LocatorOfAttributesParses | src/main/java/com/zipongo/qa/selenium/commons/BrowserDriver.java:2885-2916 | every text `getWebElementLocator` returns is accepted by `getBy` |
| Locators.WebElementLocator | src/main/java/com/zipongo/qa/selenium/commons/BrowserDriver.java:2885-2916 | the nested loops compute the first known attribute's locator; none for a null element or map; a failure exactly when the attribute script throws (`javaScriptExecute` at 2248-2259 through `handleException`); a produced locator always parses |
| WaitBudget.ElapsedSeconds | src/main/java/com/zipongo/qa/selenium/commons/BrowserDriver.java:812-816 | more than 500 and less than 1000 ms is one second, up to 500 ms none, otherwise truncated whole seconds |
| WaitBudget.TimeLeft | src/main/java/com/zipongo/qa/selenium/commons/BrowserDriver.java:804-825 | the budget left is never negative, is zero exactly when the seconds spent reach the timeout, and otherwise adds up with them to the timeout |
| WaitBudget.ElapsedMonotone | src/main/java/com/zipongo/qa/selenium/commons/BrowserDriver.java:816 | more milliseconds never count as fewer seconds |
| WaitBudget.TimeLeftNonIncreasing | src/main/java/com/zipongo/qa/selenium/commons/BrowserDriver.java:804-825 | the budget left never grows with the time spent |
| WaitBudget.TimeLeftBounded | src/main/java/com/zipongo/qa/selenium/commons/BrowserDriver.java:804-825 | with a clock not running back a second, the budget left is at most the timeout |
| WaitBudget.RoundingAtHalfSecond | src/main/java/com/zipongo/qa/selenium/commons/BrowserDriver.java:816 | 500 ms costs nothing, 501 ms a whole second, 1999 ms one second |
| WaitBudget.ClockBackwards | src/main/java/com/zipongo/qa/selenium/commons/BrowserDriver.java:812-824 | a clock running two seconds back yields more budget than the timeout |
| WaitBudget.PresentThenRefine | src/main/java/com/zipongo/qa/selenium/commons/BrowserDriver.java:1198-1240 | success exactly when budget is left and the second wait succeeds within it; `false` exactly for a clickable wait whose second wait timed out; an exception whenever no budget is left |
| WaitBudget.SecondWaitSeesOnlyTimeLeft | src/main/java/com/zipongo/qa/selenium/commons/BrowserDriver.java:1415-1440 | the second wait is given exactly the budget left |
| WaitBudget.SpentBudgetRaises | src/main/java/com/zipongo/qa/selenium/commons/BrowserDriver.java:1455-1492 | with the budget spent, text waits raise a timeout and all others raise "not present" |
| WaitBudget.ClickableSwallowsTimeout | src/main/java/com/zipongo/qa/selenium/commons/BrowserDriver.java:1228-1236 | only the clickable wait turns a timeout into `false`; the others never return `false` |
| WaitBudget.SlowerPresenceNeverHelps | src/main/java/com/zipongo/qa/selenium/commons/BrowserDriver.java:1518-1552 | when more time never hurts the second wait, a slower presence wait never turns failure into success |
| ElementPolling.BeforeHorizon | src/main/java/com/zipongo/qa/selenium/commons/BrowserDriver.java:1365-1378 | with each sleep at least 250 ms, every tick before the deadline lies below four ticks per second of the timeout plus four, which bounds the loops |
| ElementPolling.Linger | src/main/java/com/zipongo/qa/selenium/commons/BrowserDriver.java:1365-1378 | the inner loop ends within the bound; it reports visible exactly when the deadline passed, and otherwise the element was seen hidden |
| ElementPolling.Watch | src/main/java/com/zipongo/qa/selenium/commons/BrowserDriver.java:1363-1378 | one element ends visible only past the deadline, and hidden only before it |
| ElementPolling.Sweep | src/main/java/com/zipongo/qa/selenium/commons/BrowserDriver.java:1363-1385 | the element the loop stops at is still visible at an expired deadline; no such element means the deadline did not pass |
| ElementPolling.LingerVisibleThroughout | src/main/java/com/zipongo/qa/selenium/commons/BrowserDriver.java:1365-1378 | every check inside the inner loop saw the element visible before the deadline |
| ElementPolling.WatchVisibleThroughout | src/main/java/com/zipongo/qa/selenium/commons/BrowserDriver.java:1364-1378 | an element left visible was visible at every check |
| ElementPolling.WatchElement | src/main/java/com/zipongo/qa/selenium/commons/BrowserDriver.java:1364-1378 | the inner `while` computes `Watch` |
| ElementPolling.WaitForElementsNotVisible | src/main/java/com/zipongo/qa/selenium/commons/BrowserDriver.java:1354-1389 | a failure exactly when `findElements` throws (1695-1705, through `handleException`); otherwise the loops answer `true` exactly when no element is left visible at the deadline, and no elements gives `true` |
| ElementPolling.NotVisibleMeansEachSeenHidden | src/main/java/com/zipongo/qa/selenium/commons/BrowserDriver.java:1354-1389 | `true` means every element was seen hidden at some check within the bound |
| ElementPolling.AlwaysVisibleFails | src/main/java/com/zipongo/qa/selenium/commons/BrowserDriver.java:1354-1389 | an element visible throughout makes the call answer `false`, at it or at an earlier element |
| ElementPolling.AllHiddenSucceeds | src/main/java/com/zipongo/qa/selenium/commons/BrowserDriver.java:1354-1389 | all elements hidden gives `true` without sleeping |
| ElementPolling.LaterElementsIgnored | src/main/java/com/zipongo/qa/selenium/commons/BrowserDriver.java:1380-1384 | elements after the first one left visible are never looked at |
| DropDowns.IsExpected | src/main/java/com/zipongo/qa/selenium/commons/BrowserDriver.java:2339-2348 | the inner loop finds whether the text equals some trimmed expected entry |
| DropDowns.SelectedOptionsExpected | src/main/java/com/zipongo/qa/selenium/commons/BrowserDriver.java:2330-2362 | `true` exactly when the counts agree and every selected text is a trimmed expected entry |
| DropDowns.ValidateDropDownSelectedOptions | src/main/java/com/zipongo/qa/selenium/commons/BrowserDriver.java:2318-2370 | the verdict and each exception: no session, a locator `getBy` rejects, no element, no `type` attribute, and an element that is not a `select` tag; otherwise `type` must contain `select` and the selection must match |
| DropDowns.AllSelectedExpectedIsContainment | src/main/java/com/zipongo/qa/selenium/commons/BrowserDriver.java:2330-2362 | the check is set containment of the selected texts in the trimmed expected ones (both directions) |
| DropDowns.ReorderedSelectionAccepted | src/main/java/com/zipongo/qa/selenium/commons/BrowserDriver.java:2330-2362 | the expected options selected in any order pass |
| DropDowns.DuplicateSelectionAccepted | src/main/java/com/zipongo/qa/selenium/commons/BrowserDriver.java:2330-2362 | one expected option selected twice passes although another is not selected |
| DropDowns.WrongCountRejected | src/main/java/com/zipongo/qa/selenium/commons/BrowserDriver.java:2330 | a selection of another size never passes |
| DriverSession.Acquire | src/main/java/com/zipongo/qa/selenium/commons/BrowserDriver.java:100-162 | a returned handle is the stored one; an existing handle is returned unchanged |
| DriverSession.CloseStep | src/main/java/com/zipongo/qa/selenium/commons/BrowserDriver.java:1116-1129 | the field is empty after close exactly when it was empty or `quit()` succeeded; otherwise unchanged |
| DriverSession.ExistingDriverReused | src/main/java/com/zipongo/qa/selenium/commons/BrowserDriver.java:100-110 | with a driver present, initialisation never runs again |
| DriverSession.AcquireReturnsStoredHandle | src/main/java/com/zipongo/qa/selenium/commons/BrowserDriver.java:100-162 | a driver is returned exactly when one is present or initialisation completes, and it is the stored one |
| DriverSession.HalfStartedDriverReturnedNext | src/main/java/com/zipongo/qa/selenium/commons/BrowserDriver.java:143-161 | when the recovery `quit()` fails, the call throws but the next call returns the half-started driver |
| DriverSession.CloseIdempotent | src/main/java/com/zipongo/qa/selenium/commons/BrowserDriver.java:1116-1129 | closing twice after a successful quit changes nothing |
| DriverSession.ReopenAfterClose | src/main/java/com/zipongo/qa/selenium/commons/BrowserDriver.java:100-110 | after a successful close, the next call starts a new session |
| DriverSession.Poll | src/main/java/com/zipongo/qa/selenium/commons/BrowserDriver.java:307-323 | a normal return reads the state between once and twenty times |
| DriverSession.PollReadyState | src/main/java/com/zipongo/qa/selenium/commons/BrowserDriver.java:312-321 | the `do`/`while` loop computes `Poll` |
| DriverSession.EarlyStopMeansComplete | src/main/java/com/zipongo/qa/selenium/commons/BrowserDriver.java:321 | fewer than twenty reads means the last state read was `complete` |
| DriverSession.NeverCompleteReturnsAfterTwenty | src/main/java/com/zipongo/qa/selenium/commons/BrowserDriver.java:312-321 | a page never complete is read twenty times, then the call returns normally |
| DriverSession.CompleteAtOnce | src/main/java/com/zipongo/qa/selenium/commons/BrowserDriver.java:312-321 | a complete page is read once |
| DriverSession.CompleteIgnoresCase | src/main/java/com/zipongo/qa/selenium/commons/BrowserDriver.java:321 | `COMPLETE` and `Complete` count, `loading` does not |
| DriverSession.BrowserSession.constructor | src/main/java/com/zipongo/qa/selenium/commons/BrowserDriver.java:100-101 | no driver at first |
| DriverSession.BrowserSession.GetCurrentDriver | src/main/java/com/zipongo/qa/selenium/commons/BrowserDriver.java:100-162 | the new field and the result are those of `Acquire` |
| DriverSession.BrowserSession.Close | src/main/java/com/zipongo/qa/selenium/commons/BrowserDriver.java:1116-1129 | the new field is that of `CloseStep` |
| DriverSession.BrowserSession.WaitForPageLoad | src/main/java/com/zipongo/qa/selenium/commons/BrowserDriver.java:307-323 | the driver is acquired first; its failure propagates, otherwise the result is that of `Poll` |
| Grid.ValidateAndCleanHubList | src/main/java/com/zipongo/qa/selenium/commons/GridFactory.java:88-95 | never more URLs than hub strings |
| Grid.CleanKeepsExactlyValid | src/main/java/com/zipongo/qa/selenium/commons/GridFactory.java:88-95 | a URL is kept exactly when some hub string parses to it (both directions) |
| Grid.CleanDistributes | src/main/java/com/zipongo/qa/selenium/commons/GridFactory.java:88-95 | cleaning works hub by hub, so order is kept: cleaning a concatenation concatenates the cleaned parts |
| Grid.MalformedHubDropped | src/main/java/com/zipongo/qa/selenium/commons/GridFactory.java:364-375 | a malformed hub is dropped without affecting the others |
| Grid.CleanKeepsAllValid | src/main/java/com/zipongo/qa/selenium/commons/GridFactory.java:88-95 | with every hub well formed, the list is the parsed hubs one for one |
| Grid.HubListFor | src/main/java/com/zipongo/qa/selenium/commons/GridFactory.java:67-76 | a constructed hub list is never empty |
| Grid.ValidHubsUsed | src/main/java/com/zipongo/qa/selenium/commons/GridFactory.java:70-76 | with one well-formed hub, the cleaned list is used and the local hub is not added |
| Grid.LocalHubFallback | src/main/java/com/zipongo/qa/selenium/commons/GridFactory.java:73-76 | with no well-formed hub, the list is the local hub alone |
| Grid.ConstructedHubListNonEmpty | src/main/java/com/zipongo/qa/selenium/commons/GridFactory.java:51-76 | after either constructor the list is non-empty; the default constructor's is the local hub alone |
| Grid.WithDefaults | src/main/java/com/zipongo/qa/selenium/commons/GridFactory.java:100-115 | `takeScreenshot` is always true; `jenkinsBuildTag` is set exactly for a non-empty `BUILD_TAG`, `hostName` exactly when the lookup succeeds; nothing else is added |
| Grid.OtherCapabilitiesKept | src/main/java/com/zipongo/qa/selenium/commons/GridFactory.java:100-115 | capabilities other than the three defaults are unchanged |
| Grid.WithDefaultsIdempotent | src/main/java/com/zipongo/qa/selenium/commons/GridFactory.java:100-115 | adding the defaults twice in the same environment equals adding them once |
| Grid.StaleBuildTagKept | src/main/java/com/zipongo/qa/selenium/commons/GridFactory.java:100-115 | a build tag from an earlier construction survives a later one without `BUILD_TAG` |
| Grid.Merge | src/main/java/com/zipongo/qa/selenium/commons/GridFactory.java:152 | merged keys are the union, defaults win, the request's other values are kept |
| Grid.RequestTakesScreenshots | src/main/java/com/zipongo/qa/selenium/commons/GridFactory.java:149-152 | every request asks for screenshots, even when it asked not to |
| Grid.DriverFromFuture | src/main/java/com/zipongo/qa/selenium/commons/GridFactory.java:203-214 | a driver exactly for a delivered attempt; every failure becomes "no driver" |
| Grid.FirstSuccess | src/main/java/com/zipongo/qa/selenium/commons/GridFactory.java:170-177 | the round's answer is the first hub that delivers, every earlier hub failed, and no answer means every hub failed |
| Grid.Round | src/main/java/com/zipongo/qa/selenium/commons/GridFactory.java:170-177 | a round's driver was delivered by a listed hub in that round |
| Grid.RoundFailsExactlyWhenEveryHubFails | src/main/java/com/zipongo/qa/selenium/commons/GridFactory.java:170-177 | a round fails exactly when every hub's attempt fails |
| Grid.HubRounds | src/main/java/com/zipongo/qa/selenium/commons/GridFactory.java:166-181 | a driver obtained comes from a listed hub |
| Grid.HubRoundsFailExactlyWhenEveryRoundFails | src/main/java/com/zipongo/qa/selenium/commons/GridFactory.java:166-181 | no driver exactly when all of rounds `count` to 3 fail |
| Grid.HubRoundsWinner | src/main/java/com/zipongo/qa/selenium/commons/GridFactory.java:166-181 | the result is the result of one of rounds `count` to 3 |
| Grid.EarliestRoundWins | src/main/java/com/zipongo/qa/selenium/commons/GridFactory.java:179 | a later round runs only when the earlier ones failed: the first delivering round decides |
| Grid.NoHubsNoDriver | src/main/java/com/zipongo/qa/selenium/commons/GridFactory.java:166-181 | with no hub, no driver |
| Grid.Attempts | src/main/java/com/zipongo/qa/selenium/commons/GridFactory.java:166-181 | the number of attempts the rounds make; no contract of its own, described by `AttemptsBounded` and `EveryHubTriedFourTimes` |
| Grid.AttemptsBounded | src/main/java/com/zipongo/qa/selenium/commons/GridFactory.java:166-181 | from round `count` on, at most `4 - count` times the number of hubs attempts in total; from round 0, at most four times the number of hubs |
| Grid.EveryHubTriedFourTimes | src/main/java/com/zipongo/qa/selenium/commons/GridFactory.java:155-181 | when all attempts fail, the rounds make `4 * hubs` attempts in all (one per hub per round, four rounds, not three as the message says), and no driver results |
| Grid.DriverComesFromListedHub | src/main/java/com/zipongo/qa/selenium/commons/GridFactory.java:155-161 | a driver obtained was delivered by a listed hub in one of the four rounds |
| Grid.GridFactory.constructor | src/main/java/com/zipongo/qa/selenium/commons/GridFactory.java:43-46 | the static fields start empty |
| Grid.GridFactory.AddDefaultCapabilities | src/main/java/com/zipongo/qa/selenium/commons/GridFactory.java:100-115 | the shared defaults become `WithDefaults` of the old ones; nothing else changes |
| Grid.GridFactory.InitDefault | src/main/java/com/zipongo/qa/selenium/commons/GridFactory.java:51-60 | the hub list is the local hub alone and the defaults are added, or "Bad URL" with an empty list |
| Grid.GridFactory.InitWithHubs | src/main/java/com/zipongo/qa/selenium/commons/GridFactory.java:67-80 | the hub list is `HubListFor` and the defaults are added, or the failure of the local fallback |
| Grid.GridFactory.GetBrowser | src/main/java/com/zipongo/qa/selenium/commons/GridFactory.java:149-162 | the request merged with the defaults is sent; on success the winning hub becomes `currentHub` and its driver is returned; otherwise the "3 attempts" exception leaves `currentHub` as it was |

## Left out

- Launching browsers (`initLocal`, `initOnGrid`, the `get*Instance` methods of `GridFactory`) is left out. It is vendor configuration of driver objects. Its effect on `mDriver` is the `InitRun` parameter.
- The polling inside Selenium's `WebDriverWait` and `ExpectedConditions` is left out. Each second wait is an oracle from its budget in seconds to met, timed out or raised.
- The waits that only delegate to `WebDriverWait` are left out.
- The thread pool and the 30-second `Future.get` timeout are not modelled. Each attempt's outcome is an oracle value.
- `synchronized` and the shutdown hook are not modelled.
- `java.net.URL` parsing is left out; it is the `parse` oracle.
- `System.getenv` and `InetAddress` are left out; they are arguments.
- `Selenium`'s printing of `By` objects is modelled as `"By." + kind + ": " + value`.
- `httpGet`, screenshots, scenario embedding, logging and `Thread.sleep` are left out. They are I/O or real time; each sleep is one tick of at least 250 ms.
- An interrupted sleep in `waitForElementsNotVisible` is assumed to last 250 ms as well.
- `handleException` is modelled only as "throws a `RuntimeException`". Taking its screenshot is I/O.
- The single-element element actions (click, type, select, cookies, frames, window size, browser logs) are left out. Each is one library call.
- `getBy` on a `null` string and the `InvalidParameterException` for an object that is neither `By` nor `WebElement` are left out.
- `validateDropDownSelectedOptions` is given what `findElement` answers for each locator as the `find` oracle.
- `getWebElementLocator` sees the attribute map as a sequence of entries in its iteration order. Whether keys repeat is not constrained.
- JavaText.LowerCase: models `toLowerCase()` in a non-Turkish default locale. Under a Turkish or Azeri default locale `I` lowers to a dotless `ı`, so `ID=x` is not read as an id by `getBy`. `Locators.UpperCaseIdKey` and `Locators.GetByIgnoresKeyCase` hold only for the modelled locale.
- `java.lang` case mapping is modelled only for the characters whose mapping involves an ASCII letter. Every comparison in the core is against ASCII names.
- `Grid.HubRounds`: its own contract states only that the hub is listed. The full characterisation is in `HubRoundsFailExactlyWhenEveryRoundFails`, `HubRoundsWinner` and `EarliestRoundWins`.
- `Grid.GridFactory.constructor`: `listOfHub` is `null` in Java before any constructor runs; the model starts it empty.
- `getCurrentHub` is a plain field read and is not modelled separately.
- Attempt outcomes (the `attempt` oracle) are keyed by round, hub URL and capabilities, so two equal URLs in one round's list get the same outcome. Java makes two independent attempts for them. No proved property depends on this.

## Findings

| source | as written | input that shows it | evidently intended | confidence | as-written member | corrected member |
|---|---|---|---|---|---|---|
| src/main/java/com/zipongo/qa/selenium/commons/BrowserDriver.java:2010-2055 | `getBy` takes the `//` xpath branch only for strings with no `=` at all | `//table[@id=theRightTable]`, the example in the method's own documentation, yields `null` | every string starting with `//` is an xpath | high, not executed | Locators.BareXPathWithEqualsRejected | Locators.CorrectedBareXPath |
| src/main/java/com/zipongo/qa/selenium/commons/BrowserDriver.java:3141-3156 | `getByLocator` writes Selenium's kind names `linkText` and `partialLinkText`, which `getBy` does not accept as keys | `By.linkText("Home")` becomes `linkText=Home`, which `getBy` maps to `null` | the text `getByLocator` produces parses back to the same `By` | medium, not executed | Locators.LinkDescriptionRejected | Locators.CorrectedDescriptionRoundTrip |
