/**
 * The settings of `defaultSettings.ts`: the module-level `settings` variable
 * that `mergeSettings` assigns, by a deep `extend` of the defaults with the
 * options, and `getSettings` reads.
 */
module Settings {
  import opened Wrappers
  import opened JsValues
  import opened Extending
  import opened Defaults

  /** The settings `mergeSettings(options)` computes: `extend(true, {}, defaultSettings, options)`. */
  function MergedSettings(options: Props): Result<Value, MergeError>
  {
    Extended(true, Obj([]), [DefaultSettings, options])
  }

  /** The module-level `settings` variable. */
  class SettingsStore {
    var settings: Value

    /** The variable before any merge: `undefined`. */
    constructor()
      ensures settings == Undefined
    {
      settings := Undefined;
    }

    /** `getSettings()`: the value the last successful `mergeSettings` stored, `undefined`
        before any. */
    function GetSettings(): (v: Value)
      reads this
      ensures v == settings
    {
      settings
    }

    /** `mergeSettings(options)`: stores the merge of the defaults and `options` into a fresh
        object; when the merge throws, the variable keeps its previous value. */
    method MergeSettings(options: Props) returns (r: Result<(), MergeError>)
      modifies this
      ensures r.Success? <==> MergedSettings(options).Success?
      ensures r.Success? ==> settings == MergedSettings(options).value
      ensures r.Failure? ==> settings == old(settings)
    {
      var merged := Extend(true, Obj([]), [DefaultSettings, options]);
      if merged.Failure? {
        return Failure(merged.error);
      }
      settings := merged.value;
      return Success(());
    }
  }

  /** `mergeSettings` merges the options into a copy of the defaults. */
  lemma MergedSettingsOverDefaults(options: Props)
    ensures MergedSettings(options) == MergedAll(true, Obj(DefaultSettings), [options])
  {
    DefaultsFullyDefined();
    ExtendedOverCopy(DefaultSettings, options);
  }

  /** The merge first copies the defaults into the fresh object, then merges `options` into the
      copy key by key: it succeeds exactly when every key of `options` merges, and each key ends
      with what `MergedEntry` gives for the default value and the option value. */
  lemma MergedSettingsPerKey(options: Props)
    requires UniqueKeys(options)
    ensures MergedSettings(options).Success? <==>
              forall k :: MergedEntry(true, Get(DefaultSettings, k), Get(options, k)).Success?
    ensures MergedSettings(options).Success? ==>
              && MergedSettings(options).value.Obj?
              && forall k :: MergedEntry(true, Get(DefaultSettings, k), Get(options, k))
                               == Success(Get(MergedSettings(options).value.props, k))
  {
    MergedSettingsOverDefaults(options);
    ExtendedPerKey(true, DefaultSettings, options);
  }

  /** With options that define no property (`{}`, or only `undefined` values), the settings are
      a copy of the defaults. */
  lemma MergedSettingsWithoutOptions(options: Props)
    requires forall i :: 0 <= i < |options| ==> options[i].1.Undefined?
    ensures MergedSettings(options) == Success(Obj(DefaultSettings))
  {
    MergedSettingsOverDefaults(options);
    MergedAllSingle(true, Obj(DefaultSettings), options);
    MergedUndefinedOnly(true, Obj(DefaultSettings), options, 0);
  }

  /** Prefixes given in the options are added to the default `rdf`, `rdfs` and `xsd` prefixes,
      and replace a default of the same name, instead of replacing the whole prefix object. */
  lemma MergedSettingsAddsPrefixes(prefixes: Props)
    requires UniqueKeys(prefixes)
    requires forall i :: 0 <= i < |prefixes| ==> prefixes[i].1.Str?
    ensures MergedSettings([("sparqlPrefixes", Obj(prefixes))]).Success?
    ensures var r := MergedSettings([("sparqlPrefixes", Obj(prefixes))]).value;
            && r.Obj? && Get(r.props, "sparqlPrefixes").Obj?
            && Overlays(Get(r.props, "sparqlPrefixes").props, prefixes, DefaultPrefixes)
  {
    MergedSettingsOverDefaults([("sparqlPrefixes", Obj(prefixes))]);
    DefaultPrefixesAt();
    MergedAddsToNested(DefaultSettings, "sparqlPrefixes", DefaultPrefixes, prefixes);
  }

  /** The defaults `langSearch`, `config` and `defaultEndpoint` are `null`, so an option that
      gives one of them as a plain object with a defined first entry makes the merge write into
      `null` and throw. */
  lemma MergedSettingsRejectsObjectOverNull(key: string, nested: Props)
    requires key == "langSearch" || key == "config" || key == "defaultEndpoint"
    requires nested != [] && !nested[0].1.Undefined?
    ensures MergedSettings([(key, Obj(nested))]).Failure?
  {
    var options := [(key, Obj(nested))];
    MergedSettingsOverDefaults(options);
    MergedAllSingle(true, Obj(DefaultSettings), options);
    DefaultNullAt(key);
    MergedAllSingle(true, Null, nested);
    assert Extended(true, Null, [nested]).Failure?;
  }

  /** The same option with no defined property (`{}`, or only `undefined` values) writes nothing
      into the `null` default: the merge succeeds and every key keeps its default, `null` included. */
  lemma MergedSettingsKeepsNullUnderEmptyObject(key: string, nested: Props)
    requires key == "langSearch" || key == "config" || key == "defaultEndpoint"
    requires forall i :: 0 <= i < |nested| ==> nested[i].1.Undefined?
    ensures MergedSettings([(key, Obj(nested))]).Success?
    ensures var r := MergedSettings([(key, Obj(nested))]).value;
            r.Obj? && forall k :: Get(r.props, k) == Get(DefaultSettings, k)
  {
    var options := [(key, Obj(nested))];
    MergedSettingsPerKey(options);
    DefaultNullAt(key);
    MergedAllSingle(true, Null, nested);
    MergedUndefinedOnly(true, Null, nested, 0);
    assert MergedEntry(true, Get(DefaultSettings, key), Get(options, key)) == Success(Null);
    forall k ensures MergedEntry(true, Get(DefaultSettings, k), Get(options, k)) == Success(Get(DefaultSettings, k)) {
      if k != key {
        assert Get(options, k) == Get([], k);
      }
    }
  }
}
