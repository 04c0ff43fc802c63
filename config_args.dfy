/**
 * `merge_config_with_args` (main.py): the user's answers merged into the loaded
 * configuration. The source works on a JSON round-trip copy, so the loaded
 * configuration itself is never changed; values here are immutable, which says
 * the same.
 */
module ConfigArgs {
  import opened Wrappers
  import opened Dicts
  import opened ConfigValues

  const OutputSection := "output"
  const DownloadSection := "download"
  const BrowserSection := "browser"
  const BaseDirKey := "base_dir"
  const CreateSubfolderKey := "create_subfolder"
  const MaxWorkersKey := "max_workers"
  const HeadlessKey := "headless"

  /** The three sections are different, and so are the two output settings. */
  lemma NamesDistinct()
    ensures OutputSection != DownloadSection && OutputSection != BrowserSection && DownloadSection != BrowserSection
    ensures BaseDirKey != CreateSubfolderKey
  {
    assert |OutputSection| == 6 && |DownloadSection| == 8 && |BrowserSection| == 7;
    assert |BaseDirKey| == 8 && |CreateSubfolderKey| == 16;
  }

  /** The settings `merge_config_with_args` assigns. */
  predicate IsArgSetting(section: string, key: string) {
    || (section == OutputSection && (key == BaseDirKey || key == CreateSubfolderKey))
    || (section == DownloadSection && key == MaxWorkersKey)
    || (section == BrowserSection && key == HeadlessKey)
  }

  predicate IsArgSection(section: string) {
    section == OutputSection || section == DownloadSection || section == BrowserSection
  }

  /** The first step: `output`, `download` and `browser` are created as empty dicts where missing. */
  method AddMissingSections(config: Config) returns (c: Config)
    ensures forall s :: Get(c, s) == if IsArgSection(s) && Get(config, s).None? then Some(JObject([])) else Get(config, s)
    ensures forall s, k :: Setting(c, s, k) == Setting(config, s, k)
  {
    var c1 := AddSection(config, OutputSection);
    var c2 := AddSection(c1, DownloadSection);
    c := AddSection(c2, BrowserSection);
    AddSectionsSpec(config, OutputSection, DownloadSection, BrowserSection);
  }

  /** `output.base_dir` and `output.create_subfolder`; `None` when `output` is not a dict. */
  method AssignOutput(c: Config, folderName: string) returns (r: Option<Config>)
    requires Get(c, OutputSection).Some?
    ensures r.None? <==> !Get(c, OutputSection).value.JObject?
    ensures r.Some? ==>
      var m := r.value;
      && Setting(m, OutputSection, BaseDirKey) == Some(JStr("downloads/" + folderName))
      && Setting(m, OutputSection, CreateSubfolderKey) == Some(JBool(false))
      && (forall s, k :: s != OutputSection || (k != BaseDirKey && k != CreateSubfolderKey) ==> Setting(m, s, k) == Setting(c, s, k))
      && (forall s :: s != OutputSection ==> Get(m, s) == Get(c, s))
  {
    NamesDistinct();
    r := AssignSetting(c, OutputSection, BaseDirKey, JStr("downloads/" + folderName));
    AssignSettingSpec(c, OutputSection, BaseDirKey, JStr("downloads/" + folderName));
    if r.None? {
      return;
    }
    var c1 := r.value;
    r := AssignSetting(c1, OutputSection, CreateSubfolderKey, JBool(false));
    AssignSettingSpec(c1, OutputSection, CreateSubfolderKey, JBool(false));
  }

  /** `download.max_workers` and `browser.headless`; `None` when either section is not a dict. */
  method AssignRunOptions(c: Config, maxWorkers: int, headless: bool) returns (r: Option<Config>)
    requires Get(c, DownloadSection).Some? && Get(c, BrowserSection).Some?
    ensures r.None? <==> !Get(c, DownloadSection).value.JObject? || !Get(c, BrowserSection).value.JObject?
    ensures r.Some? ==>
      var m := r.value;
      && Setting(m, DownloadSection, MaxWorkersKey) == Some(JInt(maxWorkers))
      && Setting(m, BrowserSection, HeadlessKey) == Some(JBool(headless))
      && (forall s, k :: (s != DownloadSection || k != MaxWorkersKey) && (s != BrowserSection || k != HeadlessKey) ==>
            Setting(m, s, k) == Setting(c, s, k))
      && (forall s :: s != DownloadSection && s != BrowserSection ==> Get(m, s) == Get(c, s))
  {
    NamesDistinct();
    r := AssignSetting(c, DownloadSection, MaxWorkersKey, JInt(maxWorkers));
    AssignSettingSpec(c, DownloadSection, MaxWorkersKey, JInt(maxWorkers));
    if r.None? {
      return;
    }
    var c1 := r.value;
    r := AssignSetting(c1, BrowserSection, HeadlessKey, JBool(headless));
    AssignSettingSpec(c1, BrowserSection, HeadlessKey, JBool(headless));
  }

  /**
   * `merge_config_with_args(config, user_input)` on a copy of `config`: `None` where
   * an assignment raises because one of the three sections is not a dict. The
   * output directory is `downloads/<folder>` without a per-site subfolder, the
   * worker count and the browser mode are the user's, and every other setting and
   * section is as it was.
   */
  method MergeConfigWithArgs(config: Config, folderName: string, maxWorkers: int, headless: bool)
    returns (merged: Option<Config>)
    ensures merged.None? <==> exists s :: IsArgSection(s) && Get(config, s).Some? && !Get(config, s).value.JObject?
    ensures merged.Some? ==>
      var m := merged.value;
      && Setting(m, OutputSection, BaseDirKey) == Some(JStr("downloads/" + folderName))
      && Setting(m, OutputSection, CreateSubfolderKey) == Some(JBool(false))
      && Setting(m, DownloadSection, MaxWorkersKey) == Some(JInt(maxWorkers))
      && Setting(m, BrowserSection, HeadlessKey) == Some(JBool(headless))
      && (forall s, k :: !IsArgSetting(s, k) ==> Setting(m, s, k) == Setting(config, s, k))
      && (forall s :: !IsArgSection(s) ==> Get(m, s) == Get(config, s))
  {
    NamesDistinct();
    var c := AddMissingSections(config);
    assert IsArgSection(OutputSection) && IsArgSection(DownloadSection) && IsArgSection(BrowserSection);
    merged := AssignOutput(c, folderName);
    if merged.None? {
      return;
    }
    var c1 := merged.value;
    merged := AssignRunOptions(c1, maxWorkers, headless);
  }
}
