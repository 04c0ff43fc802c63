/**
 * The User-Agent strings of `DynamicConfigGenerator` (src/dynamic_config.py):
 * templates per browser type, version ranges, and `generate_random_user_agent`.
 * Every `random.choice` is an index given by the caller, taken modulo the length
 * of the list it picks from.
 */
module UserAgents {
  import opened Wrappers
  import opened Text

  /** The indices `random.choice` picks: browser type, template, version. */
  datatype Choice = Choice(browser: nat, template: nat, version: nat)

  /** The keys of `user_agent_templates`, in order. */
  const BrowserTypes: seq<string> := ["chrome", "firefox", "safari", "edge"]

  /** A template as the pieces around its `{version}` placeholders (at least one). */
  type Template = pieces: seq<string> | |pieces| >= 2 witness ["", ""]

  // The literal pieces of the templates.
  const WindowsChromeHead := "Mozilla/5.0 (Windows NT 10.0; Win64; x64) AppleWebKit/537.36 (KHTML, like Gecko) Chrome/"
  const MacChromeHead := "Mozilla/5.0 (Macintosh; Intel Mac OS X 10_15_7) AppleWebKit/537.36 (KHTML, like Gecko) Chrome/"
  const LinuxChromeHead := "Mozilla/5.0 (X11; Linux x86_64) AppleWebKit/537.36 (KHTML, like Gecko) Chrome/"
  const ChromeTail := ".0.0.0 Safari/537.36"
  const WindowsFirefoxHead := "Mozilla/5.0 (Windows NT 10.0; Win64; x64; rv:"
  const MacFirefoxHead := "Mozilla/5.0 (Macintosh; Intel Mac OS X 10.15; rv:"
  const LinuxFirefoxHead := "Mozilla/5.0 (X11; Linux x86_64; rv:"
  const GeckoFirefox := ") Gecko/20100101 Firefox/"
  const SafariHead := "Mozilla/5.0 (Macintosh; Intel Mac OS X 10_15_7) AppleWebKit/605.1.15 (KHTML, like Gecko) Version/"
  const SafariTail := " Safari/605.1.15"
  const EdgeMiddle := ".0.0.0 Safari/537.36 Edg/"
  const EdgeTail := ".0.0.0"

  const ChromeWindows: Template := [WindowsChromeHead, ChromeTail]
  const ChromeMac: Template := [MacChromeHead, ChromeTail]
  const ChromeLinux: Template := [LinuxChromeHead, ChromeTail]
  const FirefoxWindows: Template := [WindowsFirefoxHead, GeckoFirefox, ""]
  const FirefoxMac: Template := [MacFirefoxHead, GeckoFirefox, ""]
  const FirefoxLinux: Template := [LinuxFirefoxHead, GeckoFirefox, ""]
  const SafariMac: Template := [SafariHead, SafariTail]
  const EdgeWindows: Template := [WindowsChromeHead, EdgeMiddle, EdgeTail]

  /** `user_agent_templates[browser]`, the Chrome ones for a type it does not list. */
  function UserAgentTemplates(browser: string): (r: seq<Template>)
    ensures |r| >= 1
  {
    if browser == "firefox" then [FirefoxWindows, FirefoxMac, FirefoxLinux]
    else if browser == "safari" then [SafariMac]
    else if browser == "edge" then [EdgeWindows]
    else [ChromeWindows, ChromeMac, ChromeLinux]
  }

  /** `browser_versions[browser]` as the half-open range `[lo, hi)`. */
  function VersionRange(browser: string): (r: (nat, nat))
    ensures r.0 < r.1
  {
    if browser == "safari" then (15, 18) else (100, 121)
  }

  /** `template.format(version=version)`: every placeholder replaced by `version`. */
  function Fill(pieces: seq<string>, version: string): string
    requires |pieces| >= 1
    decreases |pieces|
  {
    if |pieces| == 1 then pieces[0] else pieces[0] + version + Fill(pieces[1..], version)
  }

  /** The browser type used: a random one for `None`, `chrome` for an unknown name. */
  function ResolveBrowser(browserType: Option<string>, choice: Choice): string {
    if browserType.None? then BrowserTypes[choice.browser % |BrowserTypes|]
    else if browserType.value in BrowserTypes then browserType.value
    else "chrome"
  }

  /** `random.choice(self.user_agent_templates[browser])`. */
  function PickTemplate(browser: string, i: nat): (t: Template)
    ensures t in UserAgentTemplates(browser)
  {
    var templates := UserAgentTemplates(browser);
    templates[i % |templates|]
  }

  /** `random.choice(list(self.browser_versions[browser]))`. */
  function PickVersion(browser: string, i: nat): (v: nat)
    ensures VersionRange(browser).0 <= v < VersionRange(browser).1
  {
    var range := VersionRange(browser);
    range.0 + i % (range.1 - range.0)
  }

  /** `generate_random_user_agent(browser_type)`. */
  function GenerateRandomUserAgent(browserType: Option<string>, choice: Choice): string {
    var browser := ResolveBrowser(browserType, choice);
    Fill(PickTemplate(browser, choice.template), NatToString(PickVersion(browser, choice.version)))
  }

  /** The type used is always a known one, the named one when it is known. */
  lemma ResolveBrowserSpec(browserType: Option<string>, choice: Choice)
    ensures ResolveBrowser(browserType, choice) in BrowserTypes
    ensures browserType.Some? && browserType.value in BrowserTypes ==> ResolveBrowser(browserType, choice) == browserType.value
    ensures browserType.Some? && browserType.value !in BrowserTypes ==> ResolveBrowser(browserType, choice) == "chrome"
  {
  }

  /**
   * The User-Agent is one of the type's templates with every placeholder filled by
   * one version from the type's range: 100 to 120, or 15 to 17 for Safari.
   */
  lemma UserAgentShape(browserType: Option<string>, choice: Choice)
    ensures var browser := ResolveBrowser(browserType, choice);
      exists t, v :: t in UserAgentTemplates(browser) && VersionRange(browser).0 <= v < VersionRange(browser).1
        && GenerateRandomUserAgent(browserType, choice) == Fill(t, NatToString(v))
  {
    var browser := ResolveBrowser(browserType, choice);
    var t := PickTemplate(browser, choice.template);
    var v := PickVersion(browser, choice.version);
    assert GenerateRandomUserAgent(browserType, choice) == Fill(t, NatToString(v));
  }
}
