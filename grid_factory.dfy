/**
 * `GridFactory`: the list of Selenium grid hubs, the capabilities added to
 * every browser request, and the rounds of attempts that obtain a remote
 * driver from the first hub that delivers one.
 *
 * Whether a string is a well-formed URL (`new URL(s)`) is the oracle
 * `parse`, and how one attempt to open a remote driver ends is the oracle
 * `attempt(round, hub, capabilities)`.
 */
module Grid {
  import opened Wrappers

  /** A hub address that `java.net.URL` accepted; `external` is its `toString()`. */
  datatype Url = Url(external: string)

  /** The hub used when no other is given. */
  const LocalHubUrl: string := "http://localhost:4444/wd/hub"

  /** The message of the `GridFactoryException` thrown when no hub delivers a driver. */
  const NoDriverMessage: string := "Could not get WebDriver after 3 attempts"

  // ---------------------------------------------------------------------
  // The hub list
  // ---------------------------------------------------------------------

  /** `validateAndCleanHubList`: the hubs that parse as URLs, in their order; the others are dropped. */
  function ValidateAndCleanHubList(hubs: seq<string>, parse: string -> Option<Url>): (urls: seq<Url>)
    ensures |urls| <= |hubs|
  {
    if hubs == [] then []
    else
      var rest := ValidateAndCleanHubList(hubs[1..], parse);
      match parse(hubs[0])
      case Some(u) => [u] + rest
      case None => rest
  }

  /** A URL is kept exactly when some hub parses to it. */
  lemma {:induction false} CleanKeepsExactlyValid(hubs: seq<string>, parse: string -> Option<Url>, u: Url)
    ensures u in ValidateAndCleanHubList(hubs, parse) <==> exists i :: 0 <= i < |hubs| && parse(hubs[i]) == Some(u)
  {
    if hubs != [] {
      CleanKeepsExactlyValid(hubs[1..], parse, u);
      if exists i :: 0 <= i < |hubs| && parse(hubs[i]) == Some(u) {
        var i :| 0 <= i < |hubs| && parse(hubs[i]) == Some(u);
        if i > 0 {
          assert parse(hubs[1..][i - 1]) == Some(u);
        }
      }
      if exists i :: 0 <= i < |hubs[1..]| && parse(hubs[1..][i]) == Some(u) {
        var i :| 0 <= i < |hubs[1..]| && parse(hubs[1..][i]) == Some(u);
        assert parse(hubs[i + 1]) == Some(u);
      }
    }
  }

  /** Cleaning works hub by hub: the cleaned concatenation is the concatenation of the cleaned parts, so order is kept. */
  lemma {:induction false} CleanDistributes(a: seq<string>, b: seq<string>, parse: string -> Option<Url>)
    ensures ValidateAndCleanHubList(a + b, parse) == ValidateAndCleanHubList(a, parse) + ValidateAndCleanHubList(b, parse)
  {
    if a != [] {
      assert (a + b)[1..] == a[1..] + b;
      assert (a + b)[0] == a[0];
      CleanDistributes(a[1..], b, parse);
    } else {
      assert a + b == b;
    }
  }

  /** A malformed hub is dropped without affecting the others. */
  lemma MalformedHubDropped(a: seq<string>, hub: string, b: seq<string>, parse: string -> Option<Url>)
    requires parse(hub).None?
    ensures ValidateAndCleanHubList(a + [hub] + b, parse) == ValidateAndCleanHubList(a + b, parse)
  {
    CleanDistributes(a + [hub], b, parse);
    CleanDistributes(a, [hub], parse);
    CleanDistributes(a, b, parse);
    assert [hub][1..] == [];
  }

  /** When every hub is well formed, nothing is dropped: the list is the parsed hubs, one for one. */
  lemma {:induction false} CleanKeepsAllValid(hubs: seq<string>, parse: string -> Option<Url>)
    requires forall i :: 0 <= i < |hubs| ==> parse(hubs[i]).Some?
    ensures |ValidateAndCleanHubList(hubs, parse)| == |hubs|
    ensures forall i :: 0 <= i < |hubs| ==> ValidateAndCleanHubList(hubs, parse)[i] == parse(hubs[i]).value
  {
    if hubs != [] {
      assert forall i :: 0 <= i < |hubs[1..]| ==> hubs[1..][i] == hubs[i + 1];
      CleanKeepsAllValid(hubs[1..], parse);
    }
  }

  /**
   * The hub list a constructor leaves: the cleaned list, or the local hub in
   * its place when the cleaned list is empty; `None` when the local hub
   * itself does not parse (the constructor then throws).
   */
  function HubListFor(hubs: seq<string>, parse: string -> Option<Url>): (r: Option<seq<Url>>)
    ensures r.Some? ==> |r.value| > 0
  {
    var cleaned := ValidateAndCleanHubList(hubs, parse);
    if cleaned != [] then Some(cleaned)
    else match parse(LocalHubUrl)
      case Some(local) => Some([local])
      case None => None
  }

  /** With a well-formed hub in the list, it is used and the local hub is not added. */
  lemma ValidHubsUsed(hubs: seq<string>, parse: string -> Option<Url>, i: nat)
    requires i < |hubs| && parse(hubs[i]).Some?
    ensures HubListFor(hubs, parse) == Some(ValidateAndCleanHubList(hubs, parse))
  {
    CleanKeepsExactlyValid(hubs, parse, parse(hubs[i]).value);
  }

  /** With no well-formed hub, the list falls back to the local hub alone. */
  lemma LocalHubFallback(hubs: seq<string>, parse: string -> Option<Url>)
    requires forall i :: 0 <= i < |hubs| ==> parse(hubs[i]).None?
    requires parse(LocalHubUrl).Some?
    ensures HubListFor(hubs, parse) == Some([parse(LocalHubUrl).value])
  {
    var cleaned := ValidateAndCleanHubList(hubs, parse);
    if cleaned != [] {
      CleanKeepsExactlyValid(hubs, parse, cleaned[0]);
    }
  }

  // ---------------------------------------------------------------------
  // Capabilities
  // ---------------------------------------------------------------------

  /** A capability value: a flag, a text, or a browser-specific object (a profile, options). */
  datatype Capability = Flag(on: bool) | Text(text: string) | Opaque(id: nat)

  /** `DesiredCapabilities` as a map from capability names to values. */
  type Capabilities = map<string, Capability>

  /**
   * `addDefaultCapabilities` applied to `caps`. `buildTag` is what
   * `System.getenv("BUILD_TAG")` returns, `hostName` the local host name, or
   * `None` when its lookup throws.
   */
  function WithDefaults(caps: Capabilities, buildTag: Option<string>, hostName: Option<string>): (r: Capabilities)
    ensures "takeScreenshot" in r && r["takeScreenshot"] == Flag(true)
    ensures buildTag.Some? && buildTag.value != "" ==> "jenkinsBuildTag" in r && r["jenkinsBuildTag"] == Text(buildTag.value)
    ensures buildTag.None? || buildTag.value == "" ==>
      ("jenkinsBuildTag" in r <==> "jenkinsBuildTag" in caps) &&
      ("jenkinsBuildTag" in caps ==> r["jenkinsBuildTag"] == caps["jenkinsBuildTag"])
    ensures hostName.Some? ==> "hostName" in r && r["hostName"] == Text(hostName.value)
    ensures hostName.None? ==>
      ("hostName" in r <==> "hostName" in caps) && ("hostName" in caps ==> r["hostName"] == caps["hostName"])
    ensures r.Keys == caps.Keys + {"takeScreenshot"}
      + (if buildTag.Some? && buildTag.value != "" then {"jenkinsBuildTag"} else {})
      + (if hostName.Some? then {"hostName"} else {})
  {
    var withScreenshot := caps["takeScreenshot" := Flag(true)];
    var withTag :=
      if buildTag.Some? && buildTag.value != "" then withScreenshot["jenkinsBuildTag" := Text(buildTag.value)]
      else withScreenshot;
    if hostName.Some? then withTag["hostName" := Text(hostName.value)] else withTag
  }

  /** Capabilities other than the three defaults are left as they were. */
  lemma OtherCapabilitiesKept(caps: Capabilities, buildTag: Option<string>, hostName: Option<string>, k: string)
    requires k != "takeScreenshot" && k != "jenkinsBuildTag" && k != "hostName"
    ensures k in WithDefaults(caps, buildTag, hostName) <==> k in caps
    ensures k in caps ==> WithDefaults(caps, buildTag, hostName)[k] == caps[k]
  {
  }

  /** Adding the defaults twice in the same environment is the same as adding them once. */
  lemma WithDefaultsIdempotent(caps: Capabilities, buildTag: Option<string>, hostName: Option<string>)
    ensures WithDefaults(WithDefaults(caps, buildTag, hostName), buildTag, hostName) == WithDefaults(caps, buildTag, hostName)
  {
  }

  /**
   * The defaults live in one shared map: a build tag set by an earlier
   * construction stays after a later one that finds no `BUILD_TAG`.
   */
  lemma StaleBuildTagKept(caps: Capabilities, tag: string, hostName: Option<string>)
    requires tag != ""
    ensures var later := WithDefaults(WithDefaults(caps, Some(tag), hostName), None, hostName);
      "jenkinsBuildTag" in later && later["jenkinsBuildTag"] == Text(tag)
  {
  }

  /** `capabilities.merge(defaultCapabilities)`: every default overrides the request's own value. */
  function Merge(caps: Capabilities, defaults: Capabilities): (r: Capabilities)
    ensures r.Keys == caps.Keys + defaults.Keys
    ensures forall k :: k in defaults ==> r[k] == defaults[k]
    ensures forall k :: k in caps && k !in defaults ==> r[k] == caps[k]
  {
    caps + defaults
  }

  /** A browser request always asks for screenshots once the defaults have been added, even if it asked not to. */
  lemma RequestTakesScreenshots(caps: Capabilities, defaults: Capabilities, buildTag: Option<string>, hostName: Option<string>)
    ensures Merge(caps, WithDefaults(defaults, buildTag, hostName))["takeScreenshot"] == Flag(true)
  {
  }

  // ---------------------------------------------------------------------
  // Rounds of attempts
  // ---------------------------------------------------------------------

  /** A remote browser session. */
  datatype RemoteDriver = RemoteDriver(id: nat)

  /** How one `Future.get` with its 30 s timeout ends. */
  datatype Attempt =
    | Delivered(driver: RemoteDriver)
    | Unreachable      // UnreachableBrowserException
    | TimedOut         // TimeoutException
    | Interrupted      // InterruptedException
    | ExecutionFailed  // ExecutionException

  /** `WebDriverHubURL`: the driver together with the hub that delivered it. */
  datatype HubDriver = HubDriver(driver: RemoteDriver, url: Url)

  /**
   * How attempt outcomes are given: by round, hub and the capabilities sent.
   * Two equal URLs in one round therefore get the same outcome.
   */
  type AttemptOracle = (nat, Url, Capabilities) -> Attempt

  /** `getDriverFromFuture`: every kind of failure becomes "no driver"; none propagates. */
  function DriverFromFuture(a: Attempt): (r: Option<RemoteDriver>)
    ensures r.Some? <==> a.Delivered?
    ensures r.Some? ==> r.value == a.driver
  {
    match a
    case Delivered(d) => Some(d)
    case Unreachable => None
    case TimedOut => None
    case Interrupted => None
    case ExecutionFailed => None
  }

  /**
   * The stream of one round from hub `i` on. It is sequential and lazy, so
   * hubs are tried one after the other and `findAny` stops at the first that
   * delivers: the result is that hub's index.
   */
  function FirstSuccess(hubs: seq<Url>, caps: Capabilities, attempt: AttemptOracle, round: nat, i: nat): (r: Option<nat>)
    requires i <= |hubs|
    ensures r.Some? ==> i <= r.value < |hubs| && DriverFromFuture(attempt(round, hubs[r.value], caps)).Some?
    ensures r.Some? ==> forall j :: i <= j < r.value ==> DriverFromFuture(attempt(round, hubs[j], caps)).None?
    ensures r.None? ==> forall j :: i <= j < |hubs| ==> DriverFromFuture(attempt(round, hubs[j], caps)).None?
    decreases |hubs| - i
  {
    if i == |hubs| then None
    else if DriverFromFuture(attempt(round, hubs[i], caps)).Some? then Some(i)
    else FirstSuccess(hubs, caps, attempt, round, i + 1)
  }

  /** One round: the driver and hub of the first hub that delivers, if any. */
  function Round(hubs: seq<Url>, caps: Capabilities, attempt: AttemptOracle, round: nat): (r: Option<HubDriver>)
    ensures r.Some? ==> r.value.url in hubs && attempt(round, r.value.url, caps) == Delivered(r.value.driver)
  {
    match FirstSuccess(hubs, caps, attempt, round, 0)
    case Some(k) => Some(HubDriver(attempt(round, hubs[k], caps).driver, hubs[k]))
    case None => None
  }

  /**
   * `getWebDriverHubURL(listOfHub, cap, count)`: rounds `count`, `count + 1`,
   * ... over the same hub list, until one delivers or round 3 has failed.
   */
  function HubRounds(hubs: seq<Url>, caps: Capabilities, attempt: AttemptOracle, count: nat): (r: Option<HubDriver>)
    ensures r.Some? ==> r.value.url in hubs
    decreases 4 - count
  {
    if count > 3 then None
    else
      var found := Round(hubs, caps, attempt, count);
      if found.Some? then found else HubRounds(hubs, caps, attempt, count + 1)
  }

  /** A round fails exactly when the attempt at every hub fails. */
  lemma RoundFailsExactlyWhenEveryHubFails(hubs: seq<Url>, caps: Capabilities, attempt: AttemptOracle, round: nat)
    ensures Round(hubs, caps, attempt, round).None? <==> forall j :: 0 <= j < |hubs| ==> !attempt(round, hubs[j], caps).Delivered?
  {
  }

  /** The rounds fail exactly when every round from `count` to 3 fails. */
  lemma {:induction false} HubRoundsFailExactlyWhenEveryRoundFails(hubs: seq<Url>, caps: Capabilities, attempt: AttemptOracle, count: nat)
    ensures HubRounds(hubs, caps, attempt, count).None? <==> forall n :: count <= n <= 3 ==> Round(hubs, caps, attempt, n).None?
    decreases 4 - count
  {
    if count <= 3 {
      HubRoundsFailExactlyWhenEveryRoundFails(hubs, caps, attempt, count + 1);
    }
  }

  /** A result is the result of one of the rounds from `count` to 3. */
  lemma {:induction false} HubRoundsWinner(hubs: seq<Url>, caps: Capabilities, attempt: AttemptOracle, count: nat)
    requires HubRounds(hubs, caps, attempt, count).Some?
    ensures exists n :: count <= n <= 3 && Round(hubs, caps, attempt, n) == HubRounds(hubs, caps, attempt, count)
    decreases 4 - count
  {
    if Round(hubs, caps, attempt, count).None? {
      HubRoundsWinner(hubs, caps, attempt, count + 1);
    }
  }

  /** A later round runs only when every earlier one failed: the result is the first round that delivers. */
  lemma {:induction false} EarliestRoundWins(hubs: seq<Url>, caps: Capabilities, attempt: AttemptOracle, count: nat, n: nat)
    requires count <= n <= 3 && Round(hubs, caps, attempt, n).Some?
    requires forall m :: count <= m < n ==> Round(hubs, caps, attempt, m).None?
    ensures HubRounds(hubs, caps, attempt, count) == Round(hubs, caps, attempt, n)
    decreases n - count
  {
    if count < n {
      EarliestRoundWins(hubs, caps, attempt, count + 1, n);
    }
  }

  /** With no hub at all, no round can deliver. */
  lemma NoHubsNoDriver(caps: Capabilities, attempt: AttemptOracle)
    ensures HubRounds([], caps, attempt, 0).None?
  {
  }

  /** The attempts made from round `count` on: up to the winner in the winning round, every hub in the others. */
  function Attempts(hubs: seq<Url>, caps: Capabilities, attempt: AttemptOracle, count: nat): nat
    decreases 4 - count
  {
    if count > 3 then 0
    else match FirstSuccess(hubs, caps, attempt, count, 0)
      case Some(k) => k + 1
      case None => |hubs| + Attempts(hubs, caps, attempt, count + 1)
  }

  /** At most four rounds run: from round `count` on, at most `4 - count` times the number of hubs attempts in all. */
  lemma {:induction false} AttemptsBounded(hubs: seq<Url>, caps: Capabilities, attempt: AttemptOracle, count: nat)
    requires count <= 4
    ensures Attempts(hubs, caps, attempt, count) <= (4 - count) * |hubs|
    decreases 4 - count
  {
    if count <= 3 && FirstSuccess(hubs, caps, attempt, count, 0).None? {
      AttemptsBounded(hubs, caps, attempt, count + 1);
    }
  }

  /**
   * When every attempt fails, the rounds make `4 * |hubs|` attempts in all,
   * one per hub per round (each failed round tries every hub), and no driver
   * results, although the exception then says "3 attempts".
   */
  lemma {:induction false} EveryHubTriedFourTimes(hubs: seq<Url>, caps: Capabilities, attempt: AttemptOracle, count: nat)
    requires count <= 4
    requires forall n, j :: 0 <= j < |hubs| ==> !attempt(n, hubs[j], caps).Delivered?
    ensures Attempts(hubs, caps, attempt, count) == (4 - count) * |hubs|
    ensures HubRounds(hubs, caps, attempt, count).None?
    decreases 4 - count
  {
    if count <= 3 {
      RoundFailsExactlyWhenEveryHubFails(hubs, caps, attempt, count);
      EveryHubTriedFourTimes(hubs, caps, attempt, count + 1);
      assert (4 - count) * |hubs| == |hubs| + (4 - (count + 1)) * |hubs|;
    }
  }

  // ---------------------------------------------------------------------
  // The factory's static state
  // ---------------------------------------------------------------------

  /** Why a constructor throws. */
  datatype InitError =
    | BadUrl         // the default constructor: `NotFoundException("Bad URL")`
    | NoLocalHub     // the list constructor: `Optional.get()` on an empty optional

  /** The exception `getBrowser` throws. */
  datatype GridError = GridFactoryException(message: string)

  /** The static fields `listOfHub`, `defaultCapabilities` and `currentHub` of `GridFactory`. */
  class GridFactory {
    var listOfHub: seq<Url>
    var defaultCapabilities: Capabilities
    var currentHub: Option<string>

    /** The static fields as the class is loaded: no hubs, no capabilities, no hub in use. */
    constructor()
      ensures listOfHub == [] && defaultCapabilities == map[] && currentHub == None
    {
      listOfHub := [];
      defaultCapabilities := map[];
      currentHub := None;
    }

    /** `addDefaultCapabilities()`. */
    method AddDefaultCapabilities(buildTag: Option<string>, hostName: Option<string>)
      modifies this
      ensures defaultCapabilities == WithDefaults(old(defaultCapabilities), buildTag, hostName)
      ensures listOfHub == old(listOfHub) && currentHub == old(currentHub)
    {
      defaultCapabilities := defaultCapabilities["takeScreenshot" := Flag(true)];
      if buildTag.Some? && buildTag.value != "" {
        defaultCapabilities := defaultCapabilities["jenkinsBuildTag" := Text(buildTag.value)];
      }
      if hostName.Some? {
        defaultCapabilities := defaultCapabilities["hostName" := Text(hostName.value)];
      }
    }

    /** `new GridFactory()`: the local hub alone, then the defaults. */
    method InitDefault(parse: string -> Option<Url>, buildTag: Option<string>, hostName: Option<string>)
      returns (error: Option<InitError>)
      modifies this
      ensures parse(LocalHubUrl).Some? ==>
        error == None && listOfHub == [parse(LocalHubUrl).value] &&
        defaultCapabilities == WithDefaults(old(defaultCapabilities), buildTag, hostName)
      ensures parse(LocalHubUrl).None? ==>
        error == Some(BadUrl) && listOfHub == [] && defaultCapabilities == old(defaultCapabilities)
      ensures currentHub == old(currentHub)
    {
      listOfHub := [];
      var local := parse(LocalHubUrl);
      if local.None? {
        return Some(BadUrl);
      }
      listOfHub := listOfHub + [local.value];
      AddDefaultCapabilities(buildTag, hostName);
      error := None;
    }

    /** `new GridFactory(pListOfHub)`: the cleaned list, the local hub when nothing is left, then the defaults. */
    method InitWithHubs(hubs: seq<string>, parse: string -> Option<Url>, buildTag: Option<string>, hostName: Option<string>)
      returns (error: Option<InitError>)
      modifies this
      ensures HubListFor(hubs, parse).Some? ==>
        error == None && listOfHub == HubListFor(hubs, parse).value &&
        defaultCapabilities == WithDefaults(old(defaultCapabilities), buildTag, hostName)
      ensures HubListFor(hubs, parse).None? ==>
        error == Some(NoLocalHub) && listOfHub == [] && defaultCapabilities == old(defaultCapabilities)
      ensures currentHub == old(currentHub)
    {
      listOfHub := ValidateAndCleanHubList(hubs, parse);
      if listOfHub == [] {
        var local := parse(LocalHubUrl);
        if local.None? {
          return Some(NoLocalHub);
        }
        listOfHub := listOfHub + [local.value];
      }
      AddDefaultCapabilities(buildTag, hostName);
      error := None;
    }

    /**
     * `getBrowser(capabilities)`: merge in the defaults, run the rounds, and
     * record the winning hub; with no winner, throw and leave `currentHub`.
     */
    method GetBrowser(caps: Capabilities, attempt: AttemptOracle) returns (r: Result<RemoteDriver, GridError>)
      modifies this
      ensures var won := HubRounds(old(listOfHub), Merge(caps, old(defaultCapabilities)), attempt, 0);
        && (won.None? ==> r == Failure(GridFactoryException(NoDriverMessage)) && currentHub == old(currentHub))
        && (won.Some? ==> r == Success(won.value.driver) && currentHub == Some(won.value.url.external))
      ensures listOfHub == old(listOfHub) && defaultCapabilities == old(defaultCapabilities)
    {
      var merged := Merge(caps, defaultCapabilities);
      var won := HubRounds(listOfHub, merged, attempt, 0);
      if won.None? {
        return Failure(GridFactoryException(NoDriverMessage));
      }
      currentHub := Some(won.value.url.external);
      r := Success(won.value.driver);
    }
  }

  /** After either constructor succeeds, there is at least one hub; the default constructor uses the local hub alone. */
  lemma ConstructedHubListNonEmpty(hubs: seq<string>, parse: string -> Option<Url>)
    requires parse(LocalHubUrl).Some?
    ensures HubListFor(hubs, parse).Some? && |HubListFor(hubs, parse).value| > 0
    ensures HubListFor([], parse) == Some([parse(LocalHubUrl).value])
  {
  }

  /** A driver obtained came from a hub of the list, in a round whose attempt at that hub delivered it. */
  lemma DriverComesFromListedHub(hubs: seq<Url>, caps: Capabilities, attempt: AttemptOracle)
    requires HubRounds(hubs, caps, attempt, 0).Some?
    ensures var w := HubRounds(hubs, caps, attempt, 0).value;
      w.url in hubs && exists n :: 0 <= n <= 3 && attempt(n, w.url, caps) == Delivered(w.driver)
  {
    var w := HubRounds(hubs, caps, attempt, 0);
    HubRoundsWinner(hubs, caps, attempt, 0);
    var n :| 0 <= n <= 3 && Round(hubs, caps, attempt, n) == w;
    assert attempt(n, w.value.url, caps) == Delivered(w.value.driver);
  }
}
