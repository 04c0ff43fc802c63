/**
 * The JSON configuration: a dict of sections, each section a dict of settings.
 * A section that is present but not a dict makes item assignment or `update`
 * on it raise; the operations here return `None` for that case.
 */
module ConfigValues {
  import opened Wrappers
  import opened Dicts

  /** A JSON value as `json.load` produces it. */
  datatype Json =
    | JNull
    | JBool(b: bool)
    | JInt(i: int)
    | JStr(s: string)
    | JList(items: seq<Json>)
    | JObject(entries: seq<(string, Json)>)

  type Config = seq<(string, Json)>

  /**
   * The entries of section `name` for an update: its own when it is a dict, none
   * when it is missing (the `config[name] = {}` default), `None` when it is
   * another kind of value.
   */
  function SectionEntries(config: Config, name: string): (r: Option<seq<(string, Json)>>)
    ensures r.None? <==> Get(config, name).Some? && !Get(config, name).value.JObject?
  {
    var v := Get(config, name);
    if v.None? then Some([]) else if v.value.JObject? then Some(v.value.entries) else None
  }

  /**
   * `if name not in config: config[name] = {}` followed by
   * `config[name].update(updates)`; `None` where the update would raise.
   */
  function UpdateSection(config: Config, name: string, updates: seq<(string, Json)>): Option<Config> {
    match SectionEntries(config, name)
    case None => None
    case Some(entries) => Some(Set(config, name, JObject(Update(entries, updates))))
  }

  /**
   * Updating a section succeeds unless it is present and not a dict. Then the section
   * holds the updated settings (each updated key with its new value, every other key
   * as before), every other section is unchanged and the sections keep their order.
   */
  lemma UpdateSectionSpec(config: Config, name: string, updates: seq<(string, Json)>)
    ensures UpdateSection(config, name, updates).None? <==> Get(config, name).Some? && !Get(config, name).value.JObject?
    ensures UpdateSection(config, name, updates).Some? ==>
      var c := UpdateSection(config, name, updates).value;
      var old_ := SectionEntries(config, name).value;
      && Get(c, name) == Some(JObject(Update(old_, updates)))
      && (forall k :: Get(Update(old_, updates), k) == if Get(updates, k).Some? then Get(updates, k) else Get(old_, k))
      && (forall s :: s != name ==> Get(c, s) == Get(config, s))
      && |c| >= |config| && (forall i :: 0 <= i < |config| ==> c[i].0 == config[i].0)
  {
    if SectionEntries(config, name).Some? {
      var old_ := SectionEntries(config, name).value;
      SetSpec(config, name, JObject(Update(old_, updates)));
      UpdateSpec(old_, updates);
    }
  }

  /** `config[section][key]` when the section is a dict holding the key. */
  function Setting(config: Config, section: string, key: string): Option<Json> {
    var v := Get(config, section);
    if v.Some? && v.value.JObject? then Get(v.value.entries, key) else None
  }

  /** `if section not in config: config[section] = {}`. */
  function AddSection(config: Config, section: string): Config {
    if HasKey(config, section) then config else Set(config, section, JObject([]))
  }

  /** `config[section][key] = value`; `None` where it raises, for a section missing or not a dict. */
  function AssignSetting(config: Config, section: string, key: string, value: Json): Option<Config> {
    var v := Get(config, section);
    if v.Some? && v.value.JObject? then Some(Set(config, section, JObject(Set(v.value.entries, key, value))))
    else None
  }

  /**
   * Adding a missing section makes it present, and an empty dict; it changes no
   * setting and no other section, and keeps the sections' order.
   */
  lemma AddSectionSpec(config: Config, section: string)
    ensures Get(AddSection(config, section), section).Some?
    ensures Get(config, section).None? ==> Get(AddSection(config, section), section) == Some(JObject([]))
    ensures Get(config, section).Some? ==> Get(AddSection(config, section), section) == Get(config, section)
    ensures forall s :: s != section ==> Get(AddSection(config, section), s) == Get(config, s)
    ensures forall s, k :: Setting(AddSection(config, section), s, k) == Setting(config, s, k)
    ensures |AddSection(config, section)| >= |config| &&
      forall i :: 0 <= i < |config| ==> AddSection(config, section)[i].0 == config[i].0
  {
    SetSpec(config, section, JObject([]));
  }

  /**
   * Assigning a setting succeeds exactly when its section is a dict; then the key
   * holds the value, the section stays a dict, and every other setting, every other
   * section and the order of the sections are unchanged.
   */
  lemma AssignSettingSpec(config: Config, section: string, key: string, value: Json)
    ensures AssignSetting(config, section, key, value).Some? <==>
      Get(config, section).Some? && Get(config, section).value.JObject?
    ensures AssignSetting(config, section, key, value).Some? ==>
      var c := AssignSetting(config, section, key, value).value;
      && Setting(c, section, key) == Some(value)
      && Get(c, section).value.JObject?
      && (forall s, k :: s != section || k != key ==> Setting(c, s, k) == Setting(config, s, k))
      && (forall s :: s != section ==> Get(c, s) == Get(config, s))
      && |c| == |config| && (forall i :: 0 <= i < |config| ==> c[i].0 == config[i].0)
  {
    var v := Get(config, section);
    if v.Some? && v.value.JObject? {
      SetSpec(config, section, JObject(Set(v.value.entries, key, value)));
      SetSpec(v.value.entries, key, value);
      var c := AssignSetting(config, section, key, value).value;
      forall s, k | s != section || k != key ensures Setting(c, s, k) == Setting(config, s, k) {
        if s != section {
          assert Get(c, s) == Get(config, s);
        }
      }
    }
  }

  /** Adding three sections where missing: the sum of three single additions. */
  lemma AddSectionsSpec(config: Config, a: string, b: string, d: string)
    ensures var c := AddSection(AddSection(AddSection(config, a), b), d);
      && (forall s :: Get(c, s) == if (s == a || s == b || s == d) && Get(config, s).None? then Some(JObject([])) else Get(config, s))
      && (forall s, k :: Setting(c, s, k) == Setting(config, s, k))
      && |c| >= |config| && (forall i :: 0 <= i < |config| ==> c[i].0 == config[i].0)
  {
    var c1 := AddSection(config, a);
    var c2 := AddSection(c1, b);
    AddSectionSpec(config, a);
    AddSectionSpec(c1, b);
    AddSectionSpec(c2, d);
  }
}
