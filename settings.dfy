/**
 * The extension's settings object and its start-up load: when no settings
 * are stored, the defaults object itself is installed; then every key of
 * the defaults whose stored value is `undefined` is filled in place.
 * Settings-panel edits each assign one string field of the same object.
 */
module Settings {
  import opened JsValues

  /** The values of the defaults object: every field is the empty string. */
  const DefaultSettings: map<string, JsValue> := map[
    "host" := Defined(Str("")),
    "user" := Defined(Str("")),
    "password" := Defined(Str("")),
    "database" := Defined(Str("")),
    "port" := Defined(Str(""))
  ]

  /** Reading a property: a missing key reads as `undefined`. */
  function Get(props: map<string, JsValue>, key: string): JsValue
  {
    if key in props then props[key] else Undefined
  }

  /**
   * The merge restricted to the default keys in `done`: each of those keys
   * whose stored value reads as `undefined` takes the default's value.
   */
  function MergeKeys(stored: map<string, JsValue>, defaults: map<string, JsValue>, done: set<string>): (r: map<string, JsValue>)
    requires done <= defaults.Keys
    ensures r.Keys == stored.Keys + done
  {
    map k | k in stored.Keys + done ::
      if k in done && Get(stored, k) == Undefined then defaults[k] else stored[k]
  }

  /**
   * The settings after the load: keys of the defaults that were undefined
   * take the default, every other key keeps its value and its presence.
   */
  function Merge(stored: map<string, JsValue>, defaults: map<string, JsValue>): (r: map<string, JsValue>)
    ensures r.Keys == stored.Keys + defaults.Keys
    ensures forall k :: k in defaults && Get(stored, k) == Undefined ==> r[k] == defaults[k]
    ensures forall k :: k in stored && Get(stored, k) != Undefined ==> r[k] == stored[k]
    ensures forall k :: k in stored && k !in defaults ==> r[k] == stored[k]
  {
    MergeKeys(stored, defaults, defaults.Keys)
  }

  /** Merging the defaults into themselves changes nothing. */
  lemma MergeKeysSelf(defaults: map<string, JsValue>, done: set<string>)
    requires done <= defaults.Keys
    ensures MergeKeys(defaults, defaults, done) == defaults
  {
  }

  /** One iteration of the load loop extends the merge by one key. */
  lemma MergeKeysStep(stored: map<string, JsValue>, defaults: map<string, JsValue>, done: set<string>, key: string)
    requires done <= defaults.Keys && key in defaults && key !in done
    ensures var cur := MergeKeys(stored, defaults, done);
      (if Get(cur, key) == Undefined then cur[key := defaults[key]] else cur)
        == MergeKeys(stored, defaults, done + {key})
  {
  }

  /** After the load, every default key whose default is defined reads as defined. */
  lemma MergeDefinesDefaults(stored: map<string, JsValue>, defaults: map<string, JsValue>, key: string)
    requires key in defaults && defaults[key] != Undefined
    ensures Get(Merge(stored, defaults), key) != Undefined
  {
  }

  /** Loading twice is the same as loading once. */
  lemma MergeIdempotent(stored: map<string, JsValue>, defaults: map<string, JsValue>)
    ensures Merge(Merge(stored, defaults), defaults) == Merge(stored, defaults)
  {
  }

  /** The shipped defaults are all defined, so after any load all five fields read as defined. */
  lemma LoadedSettingsDefined(stored: map<string, JsValue>)
    ensures forall k :: k in DefaultSettings ==> Get(Merge(stored, DefaultSettings), k) != Undefined
  {
  }

  /** A JavaScript object whose properties are updated in place. */
  class JsObject {
    var props: map<string, JsValue>

    constructor (init: map<string, JsValue>)
      ensures props == init
    {
      props := init;
    }

    function GetProp(key: string): (v: JsValue)
      reads this
      ensures key !in props ==> v == Undefined
      ensures key in props ==> v == props[key]
    {
      Get(props, key)
    }

    /** `obj[key] = v`. */
    method SetProp(key: string, v: JsValue)
      modifies this
      ensures props == old(props)[key := v]
    {
      props := props[key := v];
    }
  }

  /** The host's per-extension settings table, as far as this extension uses it. */
  class ExtensionSettings {
    /** The `sqlquery` entry; `null` stands for `undefined` (nothing stored yet). */
    var sqlquery: JsObject?

    constructor (stored: JsObject?)
      ensures sqlquery == stored
    {
      sqlquery := stored;
    }

    /**
     * The start-up load.  With nothing stored, the defaults object itself
     * (not a copy) becomes the settings.  Then each default key whose
     * stored value is undefined is filled from the defaults.  The defaults'
     * values never change, even though the two objects may be the same.
     */
    method LoadSettings(defaults: JsObject)
      modifies this, defaults, sqlquery
      ensures sqlquery == (if old(sqlquery) == null then defaults else old(sqlquery))
      ensures defaults.props == old(defaults.props)
      ensures old(sqlquery) == null ==> sqlquery.props == old(defaults.props)
      ensures old(sqlquery) != null ==> sqlquery.props == Merge(old(sqlquery.props), old(defaults.props))
    {
      if sqlquery == null {
        sqlquery := defaults;
      }
      var target := sqlquery;
      ghost var d0 := defaults.props;
      ghost var p0 := target.props;
      var todo := defaults.props.Keys;
      while todo != {}
        invariant sqlquery == target
        invariant todo <= d0.Keys
        invariant defaults.props == d0
        invariant target == defaults ==> p0 == d0
        invariant target.props == MergeKeys(p0, d0, d0.Keys - todo)
        decreases todo
      {
        var key :| key in todo;
        ghost var done := d0.Keys - todo;
        MergeKeysStep(p0, d0, done, key);
        if target == defaults {
          MergeKeysSelf(d0, done);
          MergeKeysSelf(d0, done + {key});
        }
        if target.GetProp(key) == Undefined {
          target.SetProp(key, defaults.GetProp(key));
        }
        todo := todo - {key};
        assert d0.Keys - todo == done + {key};
      }
      if target == defaults {
        MergeKeysSelf(d0, d0.Keys);
      }
    }

    /** A settings-panel edit: `extension_settings.sqlquery[key] = String(value)`. */
    method EditField(key: string, value: string)
      requires sqlquery != null
      modifies sqlquery
      ensures sqlquery.props == old(sqlquery.props)[key := Defined(Str(value))]
    {
      sqlquery.SetProp(key, Defined(Str(value)));
    }
  }

  /**
   * Because a fresh install shares the defaults object, an edit made in the
   * settings panel afterwards also changes the defaults object.
   */
  method FreshInstallEditReachesDefaults(host: string) returns (defaultHost: JsValue)
    ensures defaultHost == Defined(Str(host))
  {
    var defaults := new JsObject(DefaultSettings);
    var settings := new ExtensionSettings(null);
    settings.LoadSettings(defaults);
    settings.EditField("host", host);
    defaultHost := defaults.GetProp("host");
  }

  /** Loading stored settings fills the missing fields and keeps the rest. */
  method LoadKeepsStoredValues(stored: map<string, JsValue>) returns (loaded: map<string, JsValue>)
    ensures forall k :: k in DefaultSettings ==> Get(loaded, k) != Undefined
    ensures forall k :: Get(stored, k) != Undefined ==> Get(loaded, k) == Get(stored, k)
  {
    var defaults := new JsObject(DefaultSettings);
    var obj := new JsObject(stored);
    var settings := new ExtensionSettings(obj);
    settings.LoadSettings(defaults);
    loaded := obj.props;
  }
}
