/** The configuration file as the plugin manager sees it: sections of
    key/value strings (option names keep their case), of which only the
    `States` key of section `Common` is read and written. */
module IniConfig {
  import opened Wrappers
  import opened StatesCodec

  type Section = map<string, string>
  type Ini = map<string, Section>

  const CommonSection: string := "Common"
  const StatesKey: string := "States"

  /** load_enabled_plugins. `file` is the parsed configuration, or None when
      the file is missing or reading it raised. The enabled list is the parsed
      `States` value; a missing file, a failed read, or a missing section or
      key all give the empty list. */
  function LoadEnabled(file: Option<Ini>): (r: seq<string>)
    ensures WellFormed(r)
    ensures file.None? ==> r == []
    ensures file.Some? && !(CommonSection in file.value && StatesKey in file.value[CommonSection]) ==> r == []
  {
    match file
    case None => []
    case Some(ini) =>
      if CommonSection in ini && StatesKey in ini[CommonSection]
      then Parse(ini[CommonSection][StatesKey])
      else []
  }

  /** The key update of save_config: section `Common` is created empty when
      missing, then its `States` value is set. Every other section, and every
      other key of `Common`, is left as it was. */
  function StoreStates(ini: Ini, line: string): (r: Ini)
    ensures r.Keys == ini.Keys + {CommonSection}
    ensures forall sec :: sec in ini && sec != CommonSection ==> r[sec] == ini[sec]
    ensures r[CommonSection].Keys == (if CommonSection in ini then ini[CommonSection].Keys else {}) + {StatesKey}
    ensures r[CommonSection][StatesKey] == line
    ensures forall k :: CommonSection in ini && k in ini[CommonSection] && k != StatesKey ==>
                          r[CommonSection][k] == ini[CommonSection][k]
  {
    var common: Section := if CommonSection in ini then ini[CommonSection] else map[];
    ini[CommonSection := common[StatesKey := line]]
  }

  /** What is written is what is read back: storing the serialized list and
      loading the file again yields that list exactly when its entries are
      well formed. */
  lemma StoreThenLoad(ini: Ini, xs: seq<string>)
    ensures LoadEnabled(Some(StoreStates(ini, Serialize(xs)))) == xs <==> WellFormed(xs)
  {
    SerializeParse(xs);
  }
}
