/**
 * config/config_db.py without its JSON file: a tree of settings addressed
 * by dot-separated paths ("interface.max_file_retry_attempts").
 */
module ConfigDb {
  import opened Options
  import Text

  /** A JSON value as the settings hold it. */
  datatype Value = Null | Bool(b: bool) | Int(i: int) | Str(s: string) | Dict(entries: map<string, Value>)

  /** The settings: the top-level JSON object. */
  type Tree = map<string, Value>

  /** A `ConfigDB`: the file it was read from and the settings in memory. */
  datatype ConfigDB = ConfigDB(configFile: string, data: Tree)

  /** Python truthiness of a value. */
  predicate Truthy(v: Value) {
    match v
    case Null => false
    case Bool(b) => b
    case Int(i) => i != 0
    case Str(s) => |s| > 0
    case Dict(m) => |m| > 0
  }

  function Dashes(n: nat): (s: string)
    ensures |s| == n && forall i :: 0 <= i < n ==> s[i] == '-'
  {
    seq(n, _ => '-')
  }

  /** The `files` section of `_get_default_config()`. */
  function DefaultFilesSection(): (m: map<string, Value>)
    ensures "default_input_file" in m
  {
    map[
      "default_input_file" := Str("dates.txt"),
      "default_output_file" := Str("tahara_results.txt"),
      "sample_file" := Str("sample_dates.txt")]
  }

  /** The `output` section of `_get_default_config()`. */
  function DefaultOutputSection(): (m: map<string, Value>)
    ensures "encoding" in m
  {
    map[
      "auto_export" := Bool(false),
      "show_hebrew_dates" := Bool(true),
      "show_cycle_intervals" := Bool(true),
      "date_separator" := Str(Dashes(25)),
      "encoding" := Str("utf-8")]
  }

  /** The `calculations` section of `_get_default_config()`: every switch on. */
  function DefaultCalculationsSection(): (m: map<string, Value>)
    ensures "include_or_zarua" in m
    ensures forall k :: k in m ==> m[k] == Bool(true)
  {
    map[
      "include_or_zarua" := Bool(true),
      "include_kartyupleity" := Bool(true),
      "include_standard_cycles" := Bool(true),
      "include_personal_intervals" := Bool(true),
      "include_unbroken_patterns" := Bool(true)]
  }

  /** The `interface` section of `_get_default_config()`. */
  function DefaultInterfaceSection(): (m: map<string, Value>)
    ensures "max_file_retry_attempts" in m
  {
    map[
      "max_file_retry_attempts" := Int(3),
      "show_parsing_errors" := Bool(true),
      "confirm_overwrite" := Bool(true)]
  }

  /** The `hebrew_calendar` section of `_get_default_config()`. */
  function DefaultCalendarSection(): (m: map<string, Value>)
    ensures "default_year" in m
  {
    map[
      "default_year" := Int(5785),
      "date_format" := Str("day/month/year")]
  }

  /**
   * `_get_default_config()`: five sections, each a non-empty object, with
   * every calculation switched on.
   */
  function DefaultConfig(): (t: Tree)
    ensures t.Keys == {"files", "output", "calculations", "interface", "hebrew_calendar"}
    ensures forall k :: k in t ==> t[k].Dict? && |t[k].entries| > 0
    ensures forall k :: k in t["calculations"].entries ==> t["calculations"].entries[k] == Bool(true)
  {
    map[
      "files" := Dict(DefaultFilesSection()),
      "output" := Dict(DefaultOutputSection()),
      "calculations" := Dict(DefaultCalculationsSection()),
      "interface" := Dict(DefaultInterfaceSection()),
      "hebrew_calendar" := Dict(DefaultCalendarSection())
    ]
  }

  // ---------------------------------------------------------------------
  // get
  // ---------------------------------------------------------------------

  /**
   * The value at path `keys` below `v`, found from the last key back: the
   * value at the path without its last key must be an object holding that
   * key. `None` when a key is missing or a step meets something that is not
   * an object.
   */
  function ValueAt(v: Value, keys: seq<string>): Option<Value>
    decreases |keys|
  {
    if |keys| == 0 then Some(v)
    else
      match ValueAt(v, keys[..|keys| - 1])
      case Some(Dict(m)) => if keys[|keys| - 1] in m then Some(m[keys[|keys| - 1]]) else None
      case _ => None
  }

  /** The first step of a path, seen from the front. */
  lemma {:induction false} ValueAtCons(v: Value, k: string, rest: seq<string>)
    ensures ValueAt(v, [k] + rest) == if v.Dict? && k in v.entries then ValueAt(v.entries[k], rest) else None
    decreases |rest|
  {
    if |rest| > 0 {
      assert ([k] + rest)[..|[k] + rest| - 1] == [k] + rest[..|rest| - 1];
      ValueAtCons(v, k, rest[..|rest| - 1]);
    } else {
      assert [k] + rest == [k];
      assert [k][..0] == [];
    }
  }

  /** A path followed by another is the second walked from where the first ends. */
  lemma {:induction false} ValueAtAppend(v: Value, a: seq<string>, b: seq<string>)
    ensures ValueAt(v, a + b) == if ValueAt(v, a).Some? then ValueAt(ValueAt(v, a).value, b) else None
    decreases |b|
  {
    if |b| > 0 {
      assert (a + b)[..|a + b| - 1] == a + b[..|b| - 1];
      ValueAtAppend(v, a, b[..|b| - 1]);
    } else {
      assert a + b == a;
    }
  }

  /**
   * Walk `keys` from `v`, as the `for` loop of `get` does: a missing key
   * (`KeyError`) or a step into something that is not an object
   * (`TypeError`) gives `default`; otherwise the value at the path.
   */
  function Lookup(v: Value, keys: seq<string>, default: Value): (r: Value)
    ensures r == if ValueAt(v, keys).Some? then ValueAt(v, keys).value else default
    decreases |keys|
  {
    if |keys| == 0 then v
    else
      assert keys == [keys[0]] + keys[1..];
      ValueAtCons(v, keys[0], keys[1..]);
      match v
      case Dict(m) => if keys[0] in m then Lookup(m[keys[0]], keys[1..], default) else default
      case _ => default
  }

  /** `get(key_path, default)`: the value at the dot-separated path, or `default` when there is none. */
  function Get(db: ConfigDB, path: string, default: Value): (r: Value)
    ensures var at := ValueAt(Dict(db.data), Text.Split(path, '.'));
      r == if at.Some? then at.value else default
  {
    Lookup(Dict(db.data), Text.Split(path, '.'), default)
  }

  /** A path that runs on past a value that is not an object reads the default (Python's `TypeError`). */
  lemma ThroughScalarIsDefault(v: Value, a: seq<string>, b: seq<string>, default: Value)
    requires ValueAt(v, a).Some? && !ValueAt(v, a).value.Dict? && |b| > 0
    ensures Lookup(v, a + b, default) == default
  {
    ValueAtAppend(v, a, b);
    var w := ValueAt(v, a).value;
    assert b == [b[0]] + b[1..];
    ValueAtCons(w, b[0], b[1..]);
  }

  /** A path through a missing key reads the default (Python's `KeyError`). */
  lemma MissingKeyIsDefault(v: Value, a: seq<string>, k: string, b: seq<string>, default: Value)
    requires ValueAt(v, a).Some? && ValueAt(v, a).value.Dict? && k !in ValueAt(v, a).value.entries
    ensures Lookup(v, a + [k] + b, default) == default
  {
    ValueAtAppend(v, a, [k] + b);
    assert a + [k] + b == a + ([k] + b);
    ValueAtCons(ValueAt(v, a).value, k, b);
  }

  // ---------------------------------------------------------------------
  // set
  // ---------------------------------------------------------------------

  /** Every intermediate object on `keys` either exists as an object or is absent. */
  predicate PathOpen(m: Tree, keys: seq<string>)
    decreases |keys|
  {
    |keys| <= 1 || keys[0] !in m || (m[keys[0]].Dict? && PathOpen(m[keys[0]].entries, keys[1..]))
  }

  /**
   * The walk of `set`: missing intermediate keys get a fresh empty object;
   * the last key is assigned. `None` where Python raises `TypeError`
   * because an intermediate value is not an object.
   */
  function SetIn(m: Tree, keys: seq<string>, v: Value): (r: Option<Tree>)
    requires |keys| >= 1
    ensures r.Some? <==> PathOpen(m, keys)
    ensures r.Some? ==> r.value.Keys == m.Keys + {keys[0]}
    ensures r.Some? ==> forall k :: k in m && k != keys[0] ==> r.value[k] == m[k]
    decreases |keys|
  {
    var k := keys[0];
    if |keys| == 1 then Some(m[k := v])
    else if k !in m then
      match SetIn(map[], keys[1..], v)
      case Some(sub) => Some(m[k := Dict(sub)])
      case None => None
    else
      match m[k]
      case Dict(child) =>
        (match SetIn(child, keys[1..], v)
         case Some(sub) => Some(m[k := Dict(sub)])
         case None => None)
      case _ => None
  }

  /** `set(key_path, value)`: `None` where it raises (the settings are then unchanged). */
  function Set(db: ConfigDB, path: string, v: Value): (r: Option<ConfigDB>)
    ensures r.Some? <==> PathOpen(db.data, Text.Split(path, '.'))
    ensures r.Some? ==> r.value.configFile == db.configFile
  {
    match SetIn(db.data, Text.Split(path, '.'), v)
    case Some(t) => Some(db.(data := t))
    case None => None
  }

  /** Reading back a path just set gives the value set. */
  lemma {:induction false} SetInThenLookup(m: Tree, keys: seq<string>, v: Value, default: Value)
    requires |keys| >= 1 && PathOpen(m, keys)
    ensures Lookup(Dict(SetIn(m, keys, v).value), keys, default) == v
    decreases |keys|
  {
    if |keys| > 1 {
      var k := keys[0];
      if k !in m {
        SetInThenLookup(map[], keys[1..], v, default);
      } else {
        SetInThenLookup(m[k].entries, keys[1..], v, default);
      }
    }
  }

  /** `keys` and `other` part ways: at some position both have a key, and the keys differ. */
  predicate Diverge(keys: seq<string>, other: seq<string>)
    decreases |keys|
  {
    |keys| > 0 && |other| > 0 && (keys[0] != other[0] || Diverge(keys[1..], other[1..]))
  }

  /** A lookup along a path that parts ways with the one set sees no change. */
  lemma {:induction false} SetInFrame(m: Tree, keys: seq<string>, v: Value, other: seq<string>, default: Value)
    requires |keys| >= 1 && PathOpen(m, keys)
    requires Diverge(keys, other)
    ensures Lookup(Dict(SetIn(m, keys, v).value), other, default) == Lookup(Dict(m), other, default)
    decreases |keys|
  {
    var k := keys[0];
    var m' := SetIn(m, keys, v).value;
    if other[0] != k {
      assert other[0] in m' <==> other[0] in m;
      if other[0] in m {
        assert m'[other[0]] == m[other[0]];
      }
    } else if k !in m {
      SetInFrame(map[], keys[1..], v, other[1..], default);
    } else {
      SetInFrame(m[k].entries, keys[1..], v, other[1..], default);
    }
  }

  /**
   * After `set(path, v)` succeeds, `get(path)` is `v`, and `get` of any path
   * that parts ways with `path` is what it was.
   */
  lemma SetThenGet(db: ConfigDB, path: string, v: Value, other: string, default: Value)
    requires Set(db, path, v).Some?
    ensures Get(Set(db, path, v).value, path, default) == v
    ensures Diverge(Text.Split(path, '.'), Text.Split(other, '.')) ==>
      Get(Set(db, path, v).value, other, default) == Get(db, other, default)
  {
    var keys := Text.Split(path, '.');
    SetInThenLookup(db.data, keys, v, default);
    if Diverge(keys, Text.Split(other, '.')) {
      SetInFrame(db.data, keys, v, Text.Split(other, '.'), default);
    }
  }

  // ---------------------------------------------------------------------
  // update_config, reset_to_defaults, get_all_config
  // ---------------------------------------------------------------------

  /**
   * `update_config(updates)`: `set` for each pair in order. When a `set`
   * raises, the pairs before it stay applied and the rest are skipped; the
   * flag says whether all of them went through.
   */
  function UpdateConfig(db: ConfigDB, updates: seq<(string, Value)>): (r: (ConfigDB, bool))
    ensures r.0.configFile == db.configFile
    ensures |updates| == 0 ==> r == (db, true)
    decreases |updates|
  {
    if |updates| == 0 then (db, true)
    else
      match Set(db, updates[0].0, updates[0].1)
      case None => (db, false)
      case Some(db1) => UpdateConfig(db1, updates[1..])
  }

  /** Updating with `a + b` is updating with `a`, then (if that went through) with `b`. */
  lemma {:induction false} UpdateConfigAppend(db: ConfigDB, a: seq<(string, Value)>, b: seq<(string, Value)>)
    ensures UpdateConfig(db, a + b) ==
      var first := UpdateConfig(db, a);
      if first.1 then UpdateConfig(first.0, b) else (first.0, false)
    decreases |a|
  {
    if |a| == 0 {
      assert a + b == b;
    } else {
      assert (a + b)[0] == a[0];
      assert (a + b)[1..] == a[1..] + b;
      match Set(db, a[0].0, a[0].1)
      case None =>
        assert UpdateConfig(db, a + b) == (db, false);
        assert UpdateConfig(db, a) == (db, false);
      case Some(db1) =>
        assert UpdateConfig(db, a + b) == UpdateConfig(db1, a[1..] + b);
        assert UpdateConfig(db, a) == UpdateConfig(db1, a[1..]);
        UpdateConfigAppend(db1, a[1..], b);
    }
  }

  /** A single pair is exactly one `set`. */
  lemma UpdateConfigSingle(db: ConfigDB, path: string, v: Value)
    ensures UpdateConfig(db, [(path, v)]) ==
      match Set(db, path, v)
      case Some(db1) => (db1, true)
      case None => (db, false)
  {
    assert [(path, v)][1..] == [];
  }

  /** `reset_to_defaults()`. */
  function ResetToDefaults(db: ConfigDB): (r: ConfigDB)
    ensures r.configFile == db.configFile
    ensures r.data == DefaultConfig()
  {
    db.(data := DefaultConfig())
  }

  /** `get_all_config()`: a copy holding the same top-level keys and values. */
  function GetAllConfig(db: ConfigDB): (r: Tree)
    ensures r.Keys == db.data.Keys
    ensures forall k :: k in r ==> r[k] == db.data[k]
  {
    db.data
  }

  // ---------------------------------------------------------------------
  // Typed getters
  // ---------------------------------------------------------------------

  /** The value at `section.key`, or `fallback` when it is absent or unreachable. */
  function SectionValue(t: Tree, section: string, key: string, fallback: Value): Value {
    if section in t && t[section].Dict? && key in t[section].entries then t[section].entries[key] else fallback
  }

  /** A two-key path is looked up one object at a time. */
  lemma GetTwoKeys(db: ConfigDB, section: string, key: string, fallback: Value)
    requires '.' !in section && '.' !in key
    ensures Get(db, section + "." + key, fallback) == SectionValue(db.data, section, key, fallback)
  {
    var keys := [section, key];
    assert forall i :: 0 <= i < |keys| ==> '.' !in keys[i];
    Text.SplitJoin(keys, '.');
    assert Text.Join(keys[1..], '.') == key;
    assert Text.Join(keys, '.') == section + "." + key;
    assert keys[1..][1..] == [];
    assert Text.Split(section + "." + key, '.') == keys;
    var root := Dict(db.data);
    if section in db.data {
      assert keys[1..] == [key];
      assert Lookup(root, keys, fallback) == Lookup(db.data[section], [key], fallback);
      match db.data[section]
      case Dict(m) =>
        if key in m {
          assert Lookup(m[key], [key][1..], fallback) == m[key];
        }
      case _ =>
    }
  }

  /** `get_default_input_file()`. */
  function GetDefaultInputFile(db: ConfigDB): (r: Value)
    ensures r == SectionValue(db.data, "files", "default_input_file", Str("dates.txt"))
  {
    GetTwoKeys(db, "files", "default_input_file", Str("dates.txt"));
    Get(db, "files" + "." + "default_input_file", Str("dates.txt"))
  }

  /** `get_default_output_file()`. */
  function GetDefaultOutputFile(db: ConfigDB): (r: Value)
    ensures r == SectionValue(db.data, "files", "default_output_file", Str("tahara_results.txt"))
  {
    GetTwoKeys(db, "files", "default_output_file", Str("tahara_results.txt"));
    Get(db, "files" + "." + "default_output_file", Str("tahara_results.txt"))
  }

  /** `get_sample_file()`. */
  function GetSampleFile(db: ConfigDB): (r: Value)
    ensures r == SectionValue(db.data, "files", "sample_file", Str("sample_dates.txt"))
  {
    GetTwoKeys(db, "files", "sample_file", Str("sample_dates.txt"));
    Get(db, "files" + "." + "sample_file", Str("sample_dates.txt"))
  }

  /** `should_auto_export()`. */
  function ShouldAutoExport(db: ConfigDB): (r: Value)
    ensures r == SectionValue(db.data, "output", "auto_export", Bool(false))
  {
    GetTwoKeys(db, "output", "auto_export", Bool(false));
    Get(db, "output" + "." + "auto_export", Bool(false))
  }

  /** `get_max_retry_attempts()`. */
  function GetMaxRetryAttempts(db: ConfigDB): (r: Value)
    ensures r == SectionValue(db.data, "interface", "max_file_retry_attempts", Int(3))
  {
    GetTwoKeys(db, "interface", "max_file_retry_attempts", Int(3));
    Get(db, "interface" + "." + "max_file_retry_attempts", Int(3))
  }

  /** `get_date_separator()`. */
  function GetDateSeparator(db: ConfigDB): (r: Value)
    ensures r == SectionValue(db.data, "output", "date_separator", Str(Dashes(25)))
  {
    GetTwoKeys(db, "output", "date_separator", Str(Dashes(25)));
    Get(db, "output" + "." + "date_separator", Str(Dashes(25)))
  }

  /** `should_show_parsing_errors()`. */
  function ShouldShowParsingErrors(db: ConfigDB): (r: Value)
    ensures r == SectionValue(db.data, "interface", "show_parsing_errors", Bool(true))
  {
    GetTwoKeys(db, "interface", "show_parsing_errors", Bool(true));
    Get(db, "interface" + "." + "show_parsing_errors", Bool(true))
  }

  /** `get_encoding()`. */
  function GetEncoding(db: ConfigDB): (r: Value)
    ensures r == SectionValue(db.data, "output", "encoding", Str("utf-8"))
  {
    GetTwoKeys(db, "output", "encoding", Str("utf-8"));
    Get(db, "output" + "." + "encoding", Str("utf-8"))
  }

  /** The `files` section of the defaults. */
  lemma DefaultFiles(configFile: string)
    ensures GetDefaultInputFile(ConfigDB(configFile, DefaultConfig())) == Str("dates.txt")
    ensures GetDefaultOutputFile(ConfigDB(configFile, DefaultConfig())) == Str("tahara_results.txt")
    ensures GetSampleFile(ConfigDB(configFile, DefaultConfig())) == Str("sample_dates.txt")
  {
    var files := DefaultConfig()["files"];
    assert files.Dict? && files.entries["default_input_file"] == Str("dates.txt");
    assert files.entries["default_output_file"] == Str("tahara_results.txt");
    assert files.entries["sample_file"] == Str("sample_dates.txt");
  }

  /** The `output` section of the defaults. */
  lemma DefaultOutput(configFile: string)
    ensures ShouldAutoExport(ConfigDB(configFile, DefaultConfig())) == Bool(false)
    ensures GetDateSeparator(ConfigDB(configFile, DefaultConfig())) == Str(Dashes(25))
    ensures GetEncoding(ConfigDB(configFile, DefaultConfig())) == Str("utf-8")
  {
    var output := DefaultOutputSection();
    assert DefaultConfig()["output"] == Dict(output);
    assert output["auto_export"] == Bool(false);
    assert output["date_separator"] == Str(Dashes(25));
    assert output["encoding"] == Str("utf-8");
  }

  /** The `interface` section of the defaults. */
  lemma DefaultInterface(configFile: string)
    ensures GetMaxRetryAttempts(ConfigDB(configFile, DefaultConfig())) == Int(3)
    ensures ShouldShowParsingErrors(ConfigDB(configFile, DefaultConfig())) == Bool(true)
  {
    var ui := DefaultConfig()["interface"];
    assert ui.Dict? && ui.entries["max_file_retry_attempts"] == Int(3);
    assert ui.entries["show_parsing_errors"] == Bool(true);
  }
}
