/**
 * The locator mini-language of `BrowserDriver`: `getBy` parses `"key=value"`
 * (or a bare `//xpath`) into a Selenium `By`, `getByLocator` turns a `By`'s
 * printed form `"By.kind: value"` back into `"kind=value"`, and
 * `getWebElementLocator` rebuilds a locator from an element's attributes.
 */
module Locators {
  import opened Wrappers
  import opened JavaText

  /** The seven Selenium `By` strategies `getBy` can produce. */
  datatype Strategy = Id | Name | LinkText | PartialLinkText | XPath | CssSelector | ClassName

  /** A Selenium `By`: one strategy and the text it searches with. */
  datatype Locator = Locator(strategy: Strategy, value: string)

  /** The lower-case keys `getBy` accepts before the first `=`, and what each selects. */
  function KeyStrategy(key: string): Option<Strategy> {
    if key == "id" then Some(Id)
    else if key == "name" then Some(Name)
    else if key == "link" then Some(LinkText)
    else if key == "partiallink" then Some(PartialLinkText)
    else if key == "xpath" then Some(XPath)
    else if key == "css" || key == "selector" || key == "cssselector" then Some(CssSelector)
    else if key == "classname" then Some(ClassName)
    else None
  }

  /**
   * `getBy(pLocator)`: split at the first `=`, lower-case the key and keep the
   * rest verbatim. Only a string without any `=` may be a bare `//` xpath.
   */
  function GetBy(s: string): Option<Locator> {
    var p := IndexOf(s, '=');
    if p >= 0 then Keyed(LowerCase(s[..p]), s[p + 1..])
    else if StartsWith(s, "//") then Some(Locator(XPath, s))
    else None
  }

  /**
   * The keyed branch of `getBy`. `link=...*` is the legacy spelling of a
   * partial link text; the whole string ends in `*` exactly when the value
   * does, since the value is its non-empty tail whenever it ends in `*`.
   */
  function Keyed(key: string, value: string): Option<Locator> {
    match KeyStrategy(key)
    case None => None
    case Some(LinkText) =>
      if EndsWith(value, "*") then Some(Locator(PartialLinkText, value[..|value| - 1]))
      else Some(Locator(LinkText, value))
    case Some(k) => Some(Locator(k, value))
  }

  /** The key `getBy` reads for each strategy, as `getWebElementLocator` writes it. */
  function CanonicalKey(k: Strategy): string {
    match k
    case Id => "id"
    case Name => "name"
    case LinkText => "link"
    case PartialLinkText => "partiallink"
    case XPath => "xpath"
    case CssSelector => "css"
    case ClassName => "classname"
  }

  /** The compact `"key=value"` text of a locator. */
  function Render(l: Locator): string {
    CanonicalKey(l.strategy) + "=" + l.value
  }

  lemma CanonicalKeyPlain(k: Strategy)
    ensures '=' !in CanonicalKey(k)
  {
  }

  lemma CanonicalKeyLowered(k: Strategy)
    ensures LowerCase(CanonicalKey(k)) == CanonicalKey(k)
  {
    LowerCaseIdentity(CanonicalKey(k));
  }

  lemma CanonicalKeySelects(k: Strategy)
    ensures KeyStrategy(CanonicalKey(k)) == Some(k)
  {
  }

  /** Every canonical key is lower-case, free of `=`, and names its own strategy. */
  lemma CanonicalKeyFacts(k: Strategy)
    ensures '=' !in CanonicalKey(k)
    ensures LowerCase(CanonicalKey(k)) == CanonicalKey(k)
    ensures KeyStrategy(CanonicalKey(k)) == Some(k)
  {
    CanonicalKeyPlain(k);
    CanonicalKeyLowered(k);
    CanonicalKeySelects(k);
  }

  /**
   * `getBy` splits at the first `=` only: the key before it is lower-cased,
   * and whatever follows it, further `=` included, is the value.
   */
  lemma GetBySplit(key: string, value: string)
    requires '=' !in key
    ensures GetBy(key + "=" + value) == Keyed(LowerCase(key), value)
  {
    var s := key + "=" + value;
    IndexOfPrefix(key, '=', value);
    assert s[..|key|] == key && s[|key| + 1..] == value;
  }

  /**
   * A key in the table selects its strategy with the value kept verbatim,
   * except that `link` with a value ending in `*` selects a partial link
   * text without the `*`.
   */
  lemma GetByKeyValue(key: string, value: string)
    requires '=' !in key && KeyStrategy(LowerCase(key)).Some?
    ensures var k := KeyStrategy(LowerCase(key)).value;
      GetBy(key + "=" + value) ==
        if k == LinkText && EndsWith(value, "*") then Some(Locator(PartialLinkText, value[..|value| - 1]))
        else Some(Locator(k, value))
  {
    GetBySplit(key, value);
  }

  /** A string without `=` is a locator exactly when it is a bare `//` xpath, kept whole. */
  lemma GetByWithoutEquals(s: string)
    requires '=' !in s
    ensures GetBy(s) == if StartsWith(s, "//") then Some(Locator(XPath, s)) else None
  {
  }

  /** `getBy` yields nothing for a key outside its table. */
  lemma GetByUnknownKey(key: string, value: string)
    requires '=' !in key && KeyStrategy(LowerCase(key)).None?
    ensures GetBy(key + "=" + value).None?
  {
    GetBySplit(key, value);
  }

  /** Keys that differ only in case select the same locator. */
  lemma GetByIgnoresKeyCase(key1: string, key2: string, value: string)
    requires '=' !in key1 && '=' !in key2 && LowerCase(key1) == LowerCase(key2)
    ensures GetBy(key1 + "=" + value) == GetBy(key2 + "=" + value)
  {
    GetBySplit(key1, value);
    GetBySplit(key2, value);
  }

  /** Rendering a locator and parsing it back gives the locator again, except a link text ending in `*`. */
  lemma RenderRoundTrip(l: Locator)
    requires !(l.strategy == LinkText && EndsWith(l.value, "*"))
    ensures GetBy(Render(l)) == Some(l)
  {
    CanonicalKeyFacts(l.strategy);
    GetBySplit(CanonicalKey(l.strategy), l.value);
  }

  /** The legacy form `link=text*` selects a partial link text without the `*`. */
  lemma LinkStarIsPartialLink(text: string)
    ensures GetBy("link=" + text + "*") == Some(Locator(PartialLinkText, text))
  {
    CanonicalKeyFacts(LinkText);
    assert "link=" + text + "*" == "link" + "=" + (text + "*");
    GetBySplit("link", text + "*");
    assert (text + "*")[..|text|] == text;
  }

  /** An upper-case key selects the same strategy as its lower-case form. */
  lemma UpperCaseIdKey(value: string)
    ensures GetBy("ID=" + value) == Some(Locator(Id, value))
  {
    assert "ID=" + value == "ID" + "=" + value;
    assert LowerCase("ID") == "id";
    GetBySplit("ID", value);
  }

  // ---------------------------------------------------------------------
  // getByLocator: from a By's printed form back to "kind=value"
  // ---------------------------------------------------------------------

  /**
   * `getByLocator(pByElement)` on `pByElement.toString()`: when the first `.`
   * comes before the first `:`, the text between them, `=`, and the trimmed
   * text after the colon.
   */
  function GetByLocator(description: string): Option<string> {
    var period := IndexOf(description, '.');
    var colon := IndexOf(description, ':');
    if period > -1 && period < colon then
      Some(description[period + 1..colon] + "=" + Trim(description[colon + 1..]))
    else None
  }

  /** When `getByLocator` answers, a `.` occurs before the first `:`. */
  lemma GetByLocatorDefinedOnly(d: string)
    requires GetByLocator(d).Some?
    ensures exists i :: 0 <= i < |d| && d[i] == '.' && ':' !in d[..i] && ':' in d[i..]
  {
    var period := IndexOf(d, '.');
    var colon := IndexOf(d, ':');
    assert d[period..][colon - period] == ':';
  }

  /** When a `.` occurs before the first `:`, `getByLocator` answers. */
  lemma GetByLocatorDefinedIf(d: string, i: int)
    requires 0 <= i < |d| && d[i] == '.' && ':' !in d[..i] && ':' in d[i..]
    ensures GetByLocator(d).Some?
  {
    IndexOfAtMost(d, '.', i);
    IndexOfAtLeast(d, ':', i);
    assert IndexOf(d, ':') != i;
  }

  /** `getByLocator` answers exactly when a `.` occurs before the first `:`. */
  lemma GetByLocatorDefined(d: string)
    ensures GetByLocator(d).Some? <==>
      exists i :: 0 <= i < |d| && d[i] == '.' && ':' !in d[..i] && ':' in d[i..]
  {
    if GetByLocator(d).Some? {
      GetByLocatorDefinedOnly(d);
    }
    if exists i :: 0 <= i < |d| && d[i] == '.' && ':' !in d[..i] && ':' in d[i..] {
      var i :| 0 <= i < |d| && d[i] == '.' && ':' !in d[..i] && ':' in d[i..];
      GetByLocatorDefinedIf(d, i);
    }
  }

  /** The name Selenium prints for each strategy in `By.toString()`. */
  function SeleniumKind(k: Strategy): string {
    match k
    case Id => "id"
    case Name => "name"
    case LinkText => "linkText"
    case PartialLinkText => "partialLinkText"
    case XPath => "xpath"
    case CssSelector => "cssSelector"
    case ClassName => "className"
  }

  /** `By.toString()` as Selenium prints it: `"By." + kind + ": " + value`. */
  function Describe(l: Locator): string {
    "By." + SeleniumKind(l.strategy) + ": " + l.value
  }

  lemma SeleniumKindNoEquals(k: Strategy)
    ensures '=' !in SeleniumKind(k)
  {
  }

  lemma SeleniumKindNoColon(k: Strategy)
    ensures ':' !in SeleniumKind(k)
  {
  }

  lemma SeleniumKindNoPeriod(k: Strategy)
    ensures '.' !in SeleniumKind(k)
  {
  }

  /**
   * On any text of the printed shape `By.kind: value`, `getByLocator` yields
   * the kind, `=`, and the value with its blanks trimmed.
   */
  lemma PrintedByParsed(kind: string, value: string)
    requires '.' !in kind && ':' !in kind
    ensures GetByLocator("By." + kind + ": " + value) == Some(kind + "=" + Trim(value))
  {
    PrintedPeriod(kind, value);
    PrintedColon(kind, value);
    PrintedSlices(kind, value);
    TrimLeadingBlank(' ', value);
  }

  lemma PrintedPeriod(kind: string, value: string)
    ensures IndexOf("By." + kind + ": " + value, '.') == 2
  {
    assert "By." + kind + ": " + value == "By" + ['.'] + (kind + ": " + value);
    IndexOfPrefix("By", '.', kind + ": " + value);
  }

  lemma PrintedColon(kind: string, value: string)
    requires ':' !in kind
    ensures IndexOf("By." + kind + ": " + value, ':') == 3 + |kind|
  {
    var head := "By." + kind;
    assert "By." + kind + ": " + value == head + [':'] + (" " + value);
    assert ':' !in head;
    IndexOfPrefix(head, ':', " " + value);
  }

  lemma PrintedSlices(kind: string, value: string)
    ensures var d := "By." + kind + ": " + value;
      d[3..3 + |kind|] == kind && d[3 + |kind| + 1..] == [' '] + value
  {
  }

  /** `getByLocator` recovers Selenium's kind name and the trimmed value from a printed `By`. */
  lemma DescribeThenGetByLocator(l: Locator)
    ensures GetByLocator(Describe(l)) == Some(SeleniumKind(l.strategy) + "=" + Trim(l.value))
  {
    SeleniumKindNoColon(l.strategy);
    SeleniumKindNoPeriod(l.strategy);
    PrintedByParsed(SeleniumKind(l.strategy), l.value);
  }

  lemma LinkTextLowered(k: Strategy)
    requires k == LinkText
    ensures LowerCase(SeleniumKind(k)) == "linktext"
  {
    LowerCaseOneCapital("link", 'T', "ext");
    assert "link" + ['T'] + "ext" == SeleniumKind(k);
    assert "link" + ['t'] + "ext" == "linktext";
  }

  lemma PartialLinkTextLowered(k: Strategy)
    requires k == PartialLinkText
    ensures LowerCase(SeleniumKind(k)) == "partiallinktext"
  {
    LowerCaseOneCapital("ink", 'T', "ext");
    LowerCaseCapital("partial", 'L', "ink" + ['T'] + "ext");
    assert "partial" + ['L'] + ("ink" + ['T'] + "ext") == SeleniumKind(k);
    assert "partial" + ['l'] + ("ink" + ['t'] + "ext") == "partiallinktext";
  }

  lemma CssSelectorLowered(k: Strategy)
    requires k == CssSelector
    ensures LowerCase(SeleniumKind(k)) == "cssselector"
  {
    LowerCaseOneCapital("css", 'S', "elector");
    assert "css" + ['S'] + "elector" == SeleniumKind(k);
    assert "css" + ['s'] + "elector" == "cssselector";
  }

  lemma ClassNameLowered(k: Strategy)
    requires k == ClassName
    ensures LowerCase(SeleniumKind(k)) == "classname"
  {
    LowerCaseOneCapital("class", 'N', "ame");
    assert "class" + ['N'] + "ame" == SeleniumKind(k);
    assert "class" + ['n'] + "ame" == "classname";
  }

  /** The key `getBy` sees after lower-casing each Selenium kind name. */
  function LoweredKind(k: Strategy): string {
    match k
    case LinkText => "linktext"
    case PartialLinkText => "partiallinktext"
    case CssSelector => "cssselector"
    case ClassName => "classname"
    case _ => SeleniumKind(k)
  }

  /** Lower-casing a Selenium kind name only folds its capital letters. */
  lemma SeleniumKindLowered(k: Strategy)
    ensures LowerCase(SeleniumKind(k)) == LoweredKind(k)
  {
    match k
    case LinkText => LinkTextLowered(k);
    case PartialLinkText => PartialLinkTextLowered(k);
    case CssSelector => CssSelectorLowered(k);
    case ClassName => ClassNameLowered(k);
    case _ => LowerCaseIdentity(SeleniumKind(k));
  }

  /** `getBy` reads the text `getByLocator` makes from a printed `By` with the lowered kind name as its key. */
  lemma KindKeyed(k: Strategy, value: string)
    ensures GetBy(SeleniumKind(k) + "=" + value) == Keyed(LoweredKind(k), value)
  {
    SeleniumKindNoEquals(k);
    SeleniumKindLowered(k);
    GetBySplit(SeleniumKind(k), value);
  }

  /** The lowered names of the non-link kinds are keys of their own strategies. */
  lemma KeyedOwnKind(k: Strategy, value: string)
    requires k != LinkText && k != PartialLinkText
    ensures Keyed(LoweredKind(k), value) == Some(Locator(k, value))
  {
  }

  /** The lowered names of the link kinds, `linktext` and `partiallinktext`, are not keys. */
  lemma KeyedLinkKindUnknown(k: Strategy, value: string)
    requires k == LinkText || k == PartialLinkText
    ensures Keyed(LoweredKind(k), value).None?
  {
  }

  /**
   * For id, name, xpath, css selector and class name, the text `getByLocator`
   * makes from a printed `By` parses back to that `By`, its value trimmed.
   */
  lemma DescriptionReparsed(l: Locator)
    requires l.strategy != LinkText && l.strategy != PartialLinkText
    ensures GetByLocator(Describe(l)).Some?
    ensures GetBy(GetByLocator(Describe(l)).value) == Some(Locator(l.strategy, Trim(l.value)))
  {
    DescribeThenGetByLocator(l);
    KindKeyed(l.strategy, Trim(l.value));
    KeyedOwnKind(l.strategy, Trim(l.value));
  }

  // ---------------------------------------------------------------------
  // Findings: two inputs the parser rejects although the code around it
  // relies on them
  // ---------------------------------------------------------------------

  /**
   * As written, a bare xpath that contains `=` (the form the documentation
   * of `getBy` shows, `//table[@id=theRightTable]`) yields no locator: the
   * `//` fallback is reached only when there is no `=` at all.
   */
  lemma BareXPathWithEqualsRejected(s: string)
    requires StartsWith(s, "//") && '=' in s
    ensures GetBy(s).None?
  {
    var p := IndexOf(s, '=');
    assert s[..2] == "//";
    assert p >= 2 by {
      assert s[0] == '/' && s[1] == '/';
    }
    var key := s[..p];
    assert key == "//" + key[2..];
    LowerCaseAppend("//", key[2..]);
    LowerCaseIdentity("//");
    assert LowerCase(key)[0] == '/';
  }

  /**
   * As written, the text `getByLocator` makes from a link-text or
   * partial-link-text `By` (`linkText=...`, `partialLinkText=...`) is not a
   * key `getBy` accepts, so re-parsing it yields no locator.
   */
  lemma LinkDescriptionRejected(l: Locator)
    requires l.strategy == LinkText || l.strategy == PartialLinkText
    ensures GetByLocator(Describe(l)).Some?
    ensures GetBy(GetByLocator(Describe(l)).value).None?
  {
    DescribeThenGetByLocator(l);
    KindKeyed(l.strategy, Trim(l.value));
    KeyedLinkKindUnknown(l.strategy, Trim(l.value));
  }

  /** The key table extended with the lower-cased Selenium kind names for links. */
  function CorrectedKeyStrategy(key: string): Option<Strategy> {
    if key == "linktext" then Some(LinkText)
    else if key == "partiallinktext" then Some(PartialLinkText)
    else KeyStrategy(key)
  }

  /** The keyed branch with the corrected table; only the legacy key `link` reads a trailing `*`. */
  function CorrectedKeyed(key: string, value: string): Option<Locator> {
    match CorrectedKeyStrategy(key)
    case None => None
    case Some(LinkText) =>
      if key == "link" && EndsWith(value, "*") then Some(Locator(PartialLinkText, value[..|value| - 1]))
      else Some(Locator(LinkText, value))
    case Some(k) => Some(Locator(k, value))
  }

  /**
   * `getBy` as its documentation and its callers expect it: a string that
   * starts with `//` is an xpath whatever it contains, and the names
   * `getByLocator` produces for links are keys.
   */
  function GetByCorrected(s: string): Option<Locator> {
    var p := IndexOf(s, '=');
    if StartsWith(s, "//") then Some(Locator(XPath, s))
    else if p >= 0 then CorrectedKeyed(LowerCase(s[..p]), s[p + 1..])
    else None
  }

  /** The corrected parser accepts every bare `//` xpath, `=` or not. */
  lemma CorrectedBareXPath(s: string)
    requires StartsWith(s, "//")
    ensures GetByCorrected(s) == Some(Locator(XPath, s))
  {
  }

  /** The corrected parser agrees with `getBy` wherever `getBy` yields a locator. */
  lemma CorrectedExtendsGetBy(s: string)
    requires GetBy(s).Some?
    ensures GetByCorrected(s) == GetBy(s)
  {
    if StartsWith(s, "//") && '=' in s {
      BareXPathWithEqualsRejected(s);
    }
  }

  lemma NotDoubleSlash(s: string)
    requires |s| > 0 && s[0] != '/'
    ensures !StartsWith(s, "//")
  {
    assert |s| < 2 || s[..2][0] == s[0];
  }

  /** Like `getBy`, the corrected parser splits a text that does not start with `/` at its first `=`. */
  lemma CorrectedSplit(key: string, value: string)
    requires '=' !in key && |key| > 0 && key[0] != '/'
    ensures GetByCorrected(key + "=" + value) == CorrectedKeyed(LowerCase(key), value)
  {
    var s := key + "=" + value;
    NotDoubleSlash(s);
    IndexOfPrefix(key, '=', value);
    assert s[..|key|] == key;
    assert s[|key| + 1..] == value;
  }

  /** The corrected table reads every lowered Selenium kind name as its own strategy. */
  lemma CorrectedKeyedOwnKind(k: Strategy, value: string)
    ensures CorrectedKeyed(LoweredKind(k), value) == Some(Locator(k, value))
  {
  }

  /** The corrected parser reads every Selenium kind name as the key of its own strategy. */
  lemma CorrectedKindKey(k: Strategy, value: string)
    ensures GetByCorrected(SeleniumKind(k) + "=" + value) == Some(Locator(k, value))
  {
    SeleniumKindNoEquals(k);
    SeleniumKindLowered(k);
    assert SeleniumKind(k)[0] != '/';
    CorrectedSplit(SeleniumKind(k), value);
    CorrectedKeyedOwnKind(k, value);
  }

  /** With the corrected parser, every printed `By` round-trips through `getByLocator`. */
  lemma CorrectedDescriptionRoundTrip(l: Locator)
    ensures GetByLocator(Describe(l)).Some?
    ensures GetByCorrected(GetByLocator(Describe(l)).value) == Some(Locator(l.strategy, Trim(l.value)))
  {
    DescribeThenGetByLocator(l);
    CorrectedKindKey(l.strategy, Trim(l.value));
  }

  // ---------------------------------------------------------------------
  // getWebElementLocator: a locator from an element's attributes
  // ---------------------------------------------------------------------

  /** The attribute names `getWebElementLocator` looks for, in the order it tries them. */
  const PossibleAttributes: seq<string> := ["id", "name", "xpath", "link", "partiallink", "css", "classname"]

  /** An attribute name that case-insensitively equals one of the possible ones. */
  ghost predicate Known(key: string) {
    key != "" && exists c :: c in PossibleAttributes && EqualsIgnoreCase(c, key)
  }

  /** The first of `names` that equals `key` ignoring case. */
  function FirstMatch(names: seq<string>, key: string): (r: Option<string>)
    ensures r.Some? ==> r.value in names && EqualsIgnoreCase(r.value, key)
    ensures r.None? ==> forall c :: c in names ==> !EqualsIgnoreCase(c, key)
  {
    if names == [] then None
    else if EqualsIgnoreCase(names[0], key) then Some(names[0])
    else FirstMatch(names[1..], key)
  }

  /**
   * What `getWebElementLocator` computes from the attribute entries in the
   * map's iteration order: the canonical name of the first non-empty known
   * name, `=`, and that attribute's value.
   */
  function LocatorOfAttributes(entries: seq<(string, string)>): Option<string> {
    if entries == [] then None
    else
      var name := if entries[0].0 == "" then None else FirstMatch(PossibleAttributes, entries[0].0);
      if name.Some? then Some(name.value + "=" + entries[0].1)
      else LocatorOfAttributes(entries[1..])
  }

  /**
   * The locator comes from the first known attribute in iteration order, is
   * written with the canonical lower-case name, and exists only if some
   * attribute is known.
   */
  lemma {:induction false} LocatorOfAttributesChoice(entries: seq<(string, string)>)
    ensures LocatorOfAttributes(entries).None? <==> forall i :: 0 <= i < |entries| ==> !Known(entries[i].0)
    ensures LocatorOfAttributes(entries).Some? ==>
      exists i, c :: 0 <= i < |entries| && c in PossibleAttributes && EqualsIgnoreCase(c, entries[i].0)
        && LocatorOfAttributes(entries).value == c + "=" + entries[i].1
        && forall j :: 0 <= j < i ==> !Known(entries[j].0)
  {
    if entries != [] {
      LocatorOfAttributesChoice(entries[1..]);
      var key := entries[0].0;
      var name := if key == "" then None else FirstMatch(PossibleAttributes, key);
      if name.Some? {
        assert Known(key);
      } else {
        assert !Known(key);
        forall i | 0 <= i < |entries| && !Known(entries[i].0)
          ensures i == 0 || !Known(entries[1..][i - 1].0)
        {
        }
        if LocatorOfAttributes(entries).Some? {
          var i, c :| 0 <= i < |entries[1..]| && c in PossibleAttributes && EqualsIgnoreCase(c, entries[1..][i].0)
            && LocatorOfAttributes(entries[1..]).value == c + "=" + entries[1..][i].1
            && forall j :: 0 <= j < i ==> !Known(entries[1..][j].0);
          assert entries[i + 1] == entries[1..][i];
          assert forall j :: 0 <= j < i + 1 ==> !Known(entries[j].0) by {
            forall j | 0 <= j < i + 1 ensures !Known(entries[j].0) {
              if j > 0 { assert entries[j] == entries[1..][j - 1]; }
            }
          }
        }
      }
    }
  }

  /** Every text `getWebElementLocator` returns is one `getBy` parses. */
  lemma {:induction false} LocatorOfAttributesParses(entries: seq<(string, string)>)
    requires LocatorOfAttributes(entries).Some?
    ensures GetBy(LocatorOfAttributes(entries).value).Some?
  {
    var key := entries[0].0;
    var name := if key == "" then None else FirstMatch(PossibleAttributes, key);
    if name.Some? {
      var c := name.value;
      var k :| k in {Id, Name, XPath, LinkText, PartialLinkText, CssSelector, ClassName} && CanonicalKey(k) == c;
      CanonicalKeyFacts(k);
      GetByKeyValue(c, entries[0].1);
    } else {
      LocatorOfAttributesParses(entries[1..]);
    }
  }

  /** What `getWebElementLocator` obtains for an element through `getWebElementAttributes`. */
  datatype AttributeRead =
    | NullElement                             // `pWebElement` is null, so no script runs
    | ScriptRaised                            // `javaScriptExecute` threw (no session, a dead driver); `handleException` rethrows it
    | NullMap                                 // the script answered null
    | Entries(entries: seq<(string, string)>) // the attribute map, as its entries in iteration order

  /** Why `getWebElementLocator` throws instead of answering. */
  datatype LocatorError =
    | AttributeScriptRaised

  /**
   * `getWebElementLocator(pWebElement)`: the locator of the first attribute
   * whose name is a known key, `None` when there is none, and the driver's
   * failure when reading the attributes threw.
   */
  method WebElementLocator(read: AttributeRead) returns (r: Result<Option<string>, LocatorError>)
    ensures read.ScriptRaised? <==> r == Failure(AttributeScriptRaised)
    ensures read.NullElement? || read.NullMap? ==> r == Success(None)
    ensures read.Entries? ==> r == Success(LocatorOfAttributes(read.entries))
    ensures r.Success? && r.value.Some? ==> GetBy(r.value.value).Some?
  {
    if read.ScriptRaised? {
      return Failure(AttributeScriptRaised);
    }
    var locator: Option<string> := None;
    if read.Entries? && |read.entries| > 0 {
      var entries := read.entries;
      var i := 0;
      while i < |entries|
        invariant 0 <= i <= |entries|
        invariant locator.None?
        invariant LocatorOfAttributes(entries) == LocatorOfAttributes(entries[i..])
      {
        var key := entries[i].0;
        if key != "" {
          var j := 0;
          while j < |PossibleAttributes|
            invariant 0 <= j <= |PossibleAttributes|
            invariant locator.None?
            invariant FirstMatch(PossibleAttributes, key) == FirstMatch(PossibleAttributes[j..], key)
          {
            if EqualsIgnoreCase(PossibleAttributes[j], key) {
              locator := Some(PossibleAttributes[j] + "=" + entries[i].1);
              break;
            }
            assert PossibleAttributes[j..][1..] == PossibleAttributes[j + 1..];
            j := j + 1;
          }
        }
        if locator.Some? {
          assert locator == LocatorOfAttributes(entries[i..]);
          break;
        }
        assert entries[i..][1..] == entries[i + 1..];
        i := i + 1;
      }
      if locator.Some? {
        LocatorOfAttributesParses(entries);
      }
    }
    return Success(locator);
  }
}
