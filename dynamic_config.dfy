/**
 * `DynamicConfigGenerator` (src/dynamic_config.py): random User-Agent strings,
 * header sets layered for the target site and language, the dynamic network
 * section, and the template and section updates of the configuration.
 *
 * Every `random.choice` is an index given by the caller and taken modulo the
 * length of the list it picks from. Loading and saving the configuration file
 * are inputs: the configuration `load_config` returned, and whether
 * `save_config` succeeds.
 */
module DynamicConfig {
  import opened Wrappers
  import opened Text
  import opened Dicts
  import opened ConfigValues
  import opened UserAgents

  // ----- Headers -----

  /** An entry of `site_specific_configs`. */
  datatype SiteConfig = SiteConfig(domain: string, userAgentPreference: string, language: string,
                                   customHeaders: seq<(string, string)>)

  const SiteConfigs: seq<SiteConfig> := [
    SiteConfig("law.moj.gov.tw", "chrome", "zh-TW",
               [("Referer", "https://law.moj.gov.tw/"), ("Cache-Control", "no-cache")]),
    SiteConfig("www.cec.gov.tw", "chrome", "zh-TW",
               [("Referer", "https://www.cec.gov.tw/"), ("Cache-Control", "no-cache")])]

  /** The header `generate_smart_headers` sets last. */
  const UserAgentHeader := "User-Agent"

  const AcceptHeader: string := "text/html,application/xhtml+xml,application/xml;q=0.9,image/webp,image/apng,*/*;q=0.8"

  /** `language_settings[language]`, or `None` for a language it does not list. */
  function LanguageHeaders(language: string): Option<seq<(string, string)>> {
    var acceptLanguage :=
      if language == "zh-TW" then Some("zh-TW,zh;q=0.9,en;q=0.8")
      else if language == "zh-CN" then Some("zh-CN,zh;q=0.9,en;q=0.8")
      else if language == "en-US" then Some("en-US,en;q=0.9")
      else if language == "ja-JP" then Some("ja-JP,ja;q=0.9,en;q=0.8")
      else None;
    if acceptLanguage.None? then None
    else Some([("Accept-Language", acceptLanguage.value), ("Accept", AcceptHeader), ("Accept-Encoding", "gzip, deflate, br")])
  }

  const BaseHeaders: seq<(string, string)> := [
    ("Connection", "keep-alive"),
    ("Upgrade-Insecure-Requests", "1"),
    ("Sec-Fetch-Dest", "document"),
    ("Sec-Fetch-Mode", "navigate"),
    ("Sec-Fetch-Site", "none"),
    ("Sec-Fetch-User", "?1")]

  /** The first site whose domain occurs in `url`. */
  function FirstSite(sites: seq<SiteConfig>, url: string): Option<SiteConfig>
    decreases |sites|
  {
    if sites == [] then None
    else if Contains(url, sites[0].domain) then Some(sites[0])
    else FirstSite(sites[1..], url)
  }

  /** The site configuration for `target_url`: none for a missing or empty URL. */
  function SiteFor(targetUrl: Option<string>): Option<SiteConfig> {
    if targetUrl.None? || targetUrl.value == [] then None else FirstSite(SiteConfigs, targetUrl.value)
  }

  /** The explicit language, else the site's, else `zh-TW`. */
  function ChooseLanguage(language: Option<string>, site: Option<SiteConfig>): string {
    if language.Some? then language.value
    else if site.Some? then site.value.language
    else "zh-TW"
  }

  /**
   * The base headers, updated with the language's headers and then with the site's
   * custom headers where there are such, and the User-Agent set last.
   */
  function Layered(lang: Option<seq<(string, string)>>, site: Option<SiteConfig>, userAgent: string): seq<(string, string)> {
    var withLanguage := if lang.Some? then Update(BaseHeaders, lang.value) else BaseHeaders;
    var withSite := if site.Some? then Update(withLanguage, site.value.customHeaders) else withLanguage;
    Set(withSite, UserAgentHeader, userAgent)
  }

  /** The headers `generate_smart_headers` returns. */
  function SmartHeaders(targetUrl: Option<string>, language: Option<string>, choice: Choice): seq<(string, string)> {
    var site := SiteFor(targetUrl);
    var preference := if site.Some? then Some(site.value.userAgentPreference) else None;
    Layered(LanguageHeaders(ChooseLanguage(language, site)), site, GenerateRandomUserAgent(preference, choice))
  }

  /** The site found is the first listed one whose domain occurs in the URL, and none when no domain does. */
  lemma {:induction false} FirstSiteSpec(sites: seq<SiteConfig>, url: string)
    ensures FirstSite(sites, url).Some? ==>
      exists i :: 0 <= i < |sites| && sites[i] == FirstSite(sites, url).value && Contains(url, sites[i].domain)
        && forall j :: 0 <= j < i ==> !Contains(url, sites[j].domain)
    ensures FirstSite(sites, url).None? <==> forall i :: 0 <= i < |sites| ==> !Contains(url, sites[i].domain)
    decreases |sites|
  {
    if sites != [] && !Contains(url, sites[0].domain) {
      FirstSiteSpec(sites[1..], url);
      if FirstSite(sites, url).Some? {
        var i :| 0 <= i < |sites[1..]| && sites[1..][i] == FirstSite(sites, url).value && Contains(url, sites[1..][i].domain)
          && forall j :: 0 <= j < i ==> !Contains(url, sites[1..][j].domain);
        assert sites[i + 1] == FirstSite(sites, url).value;
      }
      if FirstSite(sites, url).None? {
        forall i | 0 <= i < |sites| ensures !Contains(url, sites[i].domain) {
          if i > 0 { assert sites[i] == sites[1..][i - 1]; }
        }
      }
    }
  }

  /** The base headers name each header once. */
  lemma BaseHeadersDistinct()
    ensures KeysDistinct(BaseHeaders)
  {
  }

  /**
   * `User-Agent` is set last; a site header wins over a language header, which wins
   * over a base header; the keys stay distinct.
   */
  lemma LayeredSpec(lang: Option<seq<(string, string)>>, site: Option<SiteConfig>, userAgent: string, k: string)
    ensures Get(Layered(lang, site, userAgent), k) ==
      if k == UserAgentHeader then Some(userAgent)
      else if site.Some? && Get(site.value.customHeaders, k).Some? then Get(site.value.customHeaders, k)
      else if lang.Some? && Get(lang.value, k).Some? then Get(lang.value, k)
      else Get(BaseHeaders, k)
    ensures KeysDistinct(Layered(lang, site, userAgent))
  {
    var withLanguage := if lang.Some? then Update(BaseHeaders, lang.value) else BaseHeaders;
    var withSite := if site.Some? then Update(withLanguage, site.value.customHeaders) else withLanguage;
    BaseHeadersDistinct();
    if lang.Some? {
      UpdateSpec(BaseHeaders, lang.value);
    }
    if site.Some? {
      UpdateSpec(withLanguage, site.value.customHeaders);
    }
    SetSpec(withSite, UserAgentHeader, userAgent);
  }

  /**
   * The layering of `generate_smart_headers` for the site the URL names and the
   * language chosen, with the User-Agent of the site's preferred browser type.
   */
  lemma HeadersLayering(targetUrl: Option<string>, language: Option<string>, choice: Choice, k: string)
    ensures var site := SiteFor(targetUrl);
      var lang := LanguageHeaders(ChooseLanguage(language, site));
      var custom := if site.Some? then site.value.customHeaders else [];
      var preference := if site.Some? then Some(site.value.userAgentPreference) else None;
      Get(SmartHeaders(targetUrl, language, choice), k) ==
        if k == UserAgentHeader then Some(GenerateRandomUserAgent(preference, choice))
        else if Get(custom, k).Some? then Get(custom, k)
        else if lang.Some? && Get(lang.value, k).Some? then Get(lang.value, k)
        else Get(BaseHeaders, k)
    ensures KeysDistinct(SmartHeaders(targetUrl, language, choice))
  {
    var site := SiteFor(targetUrl);
    var preference := if site.Some? then Some(site.value.userAgentPreference) else None;
    LayeredSpec(LanguageHeaders(ChooseLanguage(language, site)), site, GenerateRandomUserAgent(preference, choice), k);
  }

  // ----- Configuration -----

  /** A configuration template: sections with their settings. */
  type ConfigTemplate = seq<(string, seq<(string, Json)>)>

  function TemplateOf(maxWorkers: int, timeout: int, verifySsl: bool, browser: seq<(string, Json)>): ConfigTemplate {
    [("download", [("max_workers", JInt(maxWorkers)), ("timeout", JInt(timeout))]),
     ("output", [("base_dir", JStr("./downloads")), ("create_subfolder", JBool(false))]),
     ("network", [("verify_ssl", JBool(verifySsl))]),
     ("browser", browser)]
  }

  /** `get_config_template`: `minimal` for a name it does not know. */
  function GetConfigTemplate(templateName: string): (r: ConfigTemplate)
    ensures KeysDistinct(r)
  {
    if templateName == "aggressive" then TemplateOf(16, 60, false, [("headless", JBool(true)), ("slow_mo", JInt(0))])
    else if templateName == "stealth" then TemplateOf(2, 45, true, [("headless", JBool(false)), ("slow_mo", JInt(2000))])
    else TemplateOf(4, 30, false, [("headless", JBool(true))])
  }

  /** Every template has the four sections, in order, and the unknown names get `minimal`. */
  lemma TemplateSpec(templateName: string)
    ensures |GetConfigTemplate(templateName)| == 4
    ensures forall i :: 0 <= i < 4 ==> GetConfigTemplate(templateName)[i].0 == ["download", "output", "network", "browser"][i]
    ensures templateName !in {"aggressive", "stealth"} ==> GetConfigTemplate(templateName) == GetConfigTemplate("minimal")
  {
  }

  /** The merge loop of `apply_config_template`; `None` where it would raise. */
  function ApplyTemplate(config: Config, template: ConfigTemplate): Option<Config>
    decreases |template|
  {
    if template == [] then Some(config)
    else
      var prev := ApplyTemplate(config, template[..|template| - 1]);
      var last := template[|template| - 1];
      if prev.None? then None else UpdateSection(prev.value, last.0, last.1)
  }

  /**
   * Applying a template with distinct sections fails exactly when one of its
   * sections is present in the configuration but not a dict.
   */
  lemma {:induction false} ApplyTemplateFails(config: Config, template: ConfigTemplate)
    requires KeysDistinct(template)
    ensures ApplyTemplate(config, template).None? <==>
      exists i :: 0 <= i < |template| && SectionEntries(config, template[i].0).None?
    decreases |template|
  {
    if template != [] {
      var init := template[..|template| - 1];
      var last := template[|template| - 1];
      assert KeysDistinct(init);
      ApplyTemplateFails(config, init);
      ApplyTemplateSections(config, init);
      var prev := ApplyTemplate(config, init);
      if prev.Some? {
        GetSnoc(init, last, last.0);
        assert Get(init, last.0).None?;
        assert SectionEntries(prev.value, last.0) == SectionEntries(config, last.0);
      }
      if exists i :: 0 <= i < |template| && SectionEntries(config, template[i].0).None? {
        var i :| 0 <= i < |template| && SectionEntries(config, template[i].0).None?;
        if i < |init| {
          assert init[i] == template[i];
        }
      }
    }
  }

  /**
   * When applying a template with distinct sections succeeds, each template section
   * holds its old settings updated with the template's, and every other section is
   * unchanged.
   */
  lemma {:induction false} ApplyTemplateSections(config: Config, template: ConfigTemplate)
    requires KeysDistinct(template)
    ensures ApplyTemplate(config, template).Some? ==>
      forall i :: 0 <= i < |template| ==> SectionEntries(config, template[i].0).Some?
    ensures ApplyTemplate(config, template).Some? ==> forall s ::
      Get(ApplyTemplate(config, template).value, s) ==
        if Get(template, s).Some? then Some(JObject(Update(SectionEntries(config, s).value, Get(template, s).value)))
        else Get(config, s)
    decreases |template|
  {
    if template != [] {
      var init := template[..|template| - 1];
      var last := template[|template| - 1];
      assert KeysDistinct(init);
      ApplyTemplateSections(config, init);
      var prev := ApplyTemplate(config, init);
      if prev.Some? {
        GetSnoc(init, last, last.0);
        assert Get(init, last.0).None?;
        UpdateSectionSpec(prev.value, last.0, last.1);
        forall s | s != last.0 ensures Get(template, s) == Get(init, s) {
          GetSnoc(init, last, s);
        }
      }
    }
  }

  /** `update_config_section(section, updates)` on the loaded configuration `current`. */
  method UpdateConfigSection(current: Config, section: string, updates: seq<(string, Json)>, saveSucceeds: bool)
    returns (ok: bool, saved: Option<Config>)
    ensures saved == UpdateSection(current, section, updates)
    ensures ok == (saved.Some? && saveSucceeds)
  {
    var config := current;
    if !HasKey(config, section) {
      config := Set(config, section, JObject([]));
    }
    var entry := Get(config, section).value;
    if !entry.JObject? {
      return false, None;
    }
    config := Set(config, section, JObject(Update(entry.entries, updates)));
    SetSetSameKey(current, section, JObject([]), JObject(Update(entry.entries, updates)));
    return saveSucceeds, Some(config);
  }

  /** Assigning a key twice is assigning it the second value. */
  lemma SetSetSameKey(d: Config, k: string, v: Json, w: Json)
    ensures IndexOfKey(d, k) < 0 ==> Set(Set(d, k, v), k, w) == Set(d, k, w)
    ensures Get(Set(d, k, v), k) == Some(v)
  {
    SetSpec(d, k, v);
    if IndexOfKey(d, k) < 0 {
      assert IndexOfKey(d + [(k, v)], k) == |d|;
    }
  }

  /** `apply_config_template(template_name)` on the loaded configuration `current`. */
  method ApplyConfigTemplate(templateName: string, current: Config, saveSucceeds: bool)
    returns (ok: bool, saved: Option<Config>)
    ensures saved == ApplyTemplate(current, GetConfigTemplate(templateName))
    ensures ok == (saved.Some? && saveSucceeds)
  {
    var template := GetConfigTemplate(templateName);
    var config := current;
    for i := 0 to |template|
      invariant ApplyTemplate(current, template[..i]) == Some(config)
    {
      assert template[..i + 1][..i] == template[..i];
      var (section, settings) := template[i];
      var updated := UpdateSection(config, section, settings);
      if updated.None? {
        ApplyTemplateFailureSticks(current, template, i + 1);
        return false, None;
      }
      config := updated.value;
    }
    assert template[..|template|] == template;
    return saveSucceeds, Some(config);
  }

  /** Once a step of the merge loop raises, the whole loop does. */
  lemma {:induction false} ApplyTemplateFailureSticks(config: Config, template: ConfigTemplate, n: nat)
    requires n <= |template| && ApplyTemplate(config, template[..n]).None?
    ensures ApplyTemplate(config, template).None?
    decreases |template| - n
  {
    if n < |template| {
      assert template[..n + 1][..n] == template[..n];
      ApplyTemplateFailureSticks(config, template, n + 1);
    } else {
      assert template[..n] == template;
    }
  }

  /** A string argument that may be `None`, as it is stored in JSON. */
  function OptionalString(s: Option<string>): Json {
    if s.Some? then JStr(s.value) else JNull
  }

  /** The `verify_ssl` of the base configuration's network section, `False` when absent. */
  function BaseVerifySsl(networkEntries: seq<(string, Json)>): Json {
    Get(networkEntries, VerifySslKey).GetOr(JBool(false))
  }

  /** Headers as a JSON object. */
  function HeadersJson(headers: seq<(string, string)>): (r: seq<(string, Json)>)
    ensures |r| == |headers| && forall i :: 0 <= i < |r| ==> r[i] == (headers[i].0, JStr(headers[i].1))
  {
    seq(|headers|, i requires 0 <= i < |headers| => (headers[i].0, JStr(headers[i].1)))
  }

  /** The `_dynamic_config` metadata. */
  function Metadata(generatedAt: string, targetUrl: Option<string>, language: Option<string>, browserType: Option<string>): Json {
    JObject([("generated_at", JStr(generatedAt)), ("target_url", OptionalString(targetUrl)),
             ("language", OptionalString(language)), ("browser_type", OptionalString(browserType)),
             ("version", JStr("1.0.0"))])
  }

  // The keys `generate_dynamic_config` writes.
  const NetworkSection := "network"
  const MetadataSection := "_dynamic_config"
  const UserAgentKey := "user_agent"
  const VerifySslKey := "verify_ssl"
  const HeadersKey := "headers"

  /** The settings `generate_dynamic_config` puts into the network section. */
  function DynamicNetwork(userAgent: string, verifySsl: Json, headers: seq<(string, string)>): seq<(string, Json)> {
    [(UserAgentKey, JStr(userAgent)), (VerifySslKey, verifySsl), (HeadersKey, JObject(HeadersJson(headers)))]
  }

  /** Each of the three settings is found under its key, and no other key is set. */
  lemma DynamicNetworkGet(userAgent: string, verifySsl: Json, headers: seq<(string, string)>)
    ensures Get(DynamicNetwork(userAgent, verifySsl, headers), UserAgentKey) == Some(JStr(userAgent))
    ensures Get(DynamicNetwork(userAgent, verifySsl, headers), VerifySslKey) == Some(verifySsl)
    ensures Get(DynamicNetwork(userAgent, verifySsl, headers), HeadersKey) == Some(JObject(HeadersJson(headers)))
    ensures forall k :: k != UserAgentKey && k != VerifySslKey && k != HeadersKey ==>
      Get(DynamicNetwork(userAgent, verifySsl, headers), k).None?
  {
    var d := DynamicNetwork(userAgent, verifySsl, headers);
    assert UserAgentKey[0] != VerifySslKey[0];
    assert |HeadersKey| != |UserAgentKey| && |HeadersKey| != |VerifySslKey|;
    assert IndexOfKey(d[..2], VerifySslKey) == 1;
    assert IndexOfKey(d[..2][..1], UserAgentKey) == 0;
    assert IndexOfKey(d[..2], UserAgentKey) == 0;
  }

  /**
   * `generate_dynamic_config` on the loaded configuration `base`, given the
   * User-Agent, the headers and the metadata it generates; `None` when the network
   * section is present but not a dict (the `.get` on it raises).
   */
  function DynamicConfigOf(base: Config, userAgent: string, headers: seq<(string, string)>, metadata: Json): Option<Config>
  {
    var network := SectionEntries(base, NetworkSection);
    if network.None? then None
    else
      var updated := UpdateSection(base, NetworkSection, DynamicNetwork(userAgent, BaseVerifySsl(network.value), headers));
      Some(Set(updated.value, MetadataSection, metadata))
  }

  /**
   * The dynamic configuration sets the User-Agent and headers of the network section,
   * keeps its `verify_ssl` (default `False`) and its other keys, adds the metadata,
   * and leaves every other section as it was.
   */
  lemma DynamicConfigSpec(base: Config, userAgent: string, headers: seq<(string, string)>, metadata: Json)
    ensures var r := DynamicConfigOf(base, userAgent, headers, metadata);
      && (r.None? <==> Get(base, NetworkSection).Some? && !Get(base, NetworkSection).value.JObject?)
      && (r.Some? ==>
            var old_ := SectionEntries(base, NetworkSection).value;
            var network := Get(r.value, NetworkSection);
            && network.Some? && network.value.JObject?
            && Get(network.value.entries, UserAgentKey) == Some(JStr(userAgent))
            && Get(network.value.entries, VerifySslKey) == Some(Get(old_, VerifySslKey).GetOr(JBool(false)))
            && Get(network.value.entries, HeadersKey) == Some(JObject(HeadersJson(headers)))
            && (forall k :: k != UserAgentKey && k != VerifySslKey && k != HeadersKey ==>
                  Get(network.value.entries, k) == Get(old_, k))
            && Get(r.value, MetadataSection) == Some(metadata)
            && (forall s :: s != NetworkSection && s != MetadataSection ==> Get(r.value, s) == Get(base, s)))
  {
    var network := SectionEntries(base, NetworkSection);
    if network.Some? {
      var dynamicNetwork := DynamicNetwork(userAgent, BaseVerifySsl(network.value), headers);
      UpdateSectionSpec(base, NetworkSection, dynamicNetwork);
      var updated := UpdateSection(base, NetworkSection, dynamicNetwork).value;
      SetSpec(updated, MetadataSection, metadata);
      DynamicNetworkGet(userAgent, BaseVerifySsl(network.value), headers);
    }
  }

  /** The site loop of `generate_smart_headers`, stopping at the first match. */
  method FindSiteConfig(targetUrl: Option<string>) returns (site: Option<SiteConfig>)
    ensures site == SiteFor(targetUrl)
  {
    site := None;
    if targetUrl.None? || targetUrl.value == [] {
      return;
    }
    var url := targetUrl.value;
    for i := 0 to |SiteConfigs|
      invariant FirstSite(SiteConfigs[i..], url) == FirstSite(SiteConfigs, url)
    {
      if Contains(url, SiteConfigs[i].domain) {
        site := Some(SiteConfigs[i]);
        return;
      }
      assert SiteConfigs[i..][1..] == SiteConfigs[i + 1..];
    }
  }

  /** `generate_smart_headers(target_url, language)`. */
  method GenerateSmartHeaders(targetUrl: Option<string>, language: Option<string>, choice: Choice)
    returns (headers: seq<(string, string)>)
    ensures headers == SmartHeaders(targetUrl, language, choice)
  {
    var site := FindSiteConfig(targetUrl);
    var lang := if language.Some? then language.value else if site.Some? then site.value.language else "zh-TW";
    headers := BaseHeaders;
    var languageHeaders := LanguageHeaders(lang);
    if languageHeaders.Some? {
      headers := Update(headers, languageHeaders.value);
    }
    if site.Some? {
      headers := Update(headers, site.value.customHeaders);
    }
    var preference := if site.Some? then Some(site.value.userAgentPreference) else None;
    headers := Set(headers, UserAgentHeader, GenerateRandomUserAgent(preference, choice));
  }

  /** `generate_dynamic_config(target_url, language, browser_type)` on the loaded configuration `base`. */
  method GenerateDynamicConfig(base: Config, targetUrl: Option<string>, language: Option<string>, browserType: Option<string>,
                               agentChoice: Choice, headerChoice: Choice, generatedAt: string)
    returns (config: Option<Config>)
    ensures config == DynamicConfigOf(base, GenerateRandomUserAgent(browserType, agentChoice),
                                      SmartHeaders(targetUrl, language, headerChoice),
                                      Metadata(generatedAt, targetUrl, language, browserType))
  {
    var network := SectionEntries(base, NetworkSection);
    if network.None? {
      return None;
    }
    var userAgent := GenerateRandomUserAgent(browserType, agentChoice);
    var verifySsl := Get(network.value, VerifySslKey).GetOr(JBool(false));
    var headers := GenerateSmartHeaders(targetUrl, language, headerChoice);
    var dynamicNetwork := DynamicNetwork(userAgent, verifySsl, headers);
    var updated := base;
    if !HasKey(updated, NetworkSection) {
      updated := Set(updated, NetworkSection, JObject([]));
    }
    var entry := Get(updated, NetworkSection).value;
    SetSetSameKey(base, NetworkSection, JObject([]), JObject(Update(entry.entries, dynamicNetwork)));
    updated := Set(updated, NetworkSection, JObject(Update(entry.entries, dynamicNetwork)));
    updated := Set(updated, MetadataSection, Metadata(generatedAt, targetUrl, language, browserType));
    return Some(updated);
  }
}
