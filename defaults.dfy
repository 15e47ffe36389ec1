/**
 * The `defaultSettings` object of `defaultSettings.ts` and its default
 * callbacks. Callbacks are function values known by their place in the object;
 * the ones that only log a message and return `null` are not modelled further.
 */
module Defaults {
  import opened Wrappers
  import opened JsValues
  import opened Extending

  const DefaultPrefixes: Props := [
    ("rdf", Str("http://www.w3.org/1999/02/22-rdf-syntax-ns#")),
    ("rdfs", Str("http://www.w3.org/2000/01/rdf-schema#")),
    ("xsd", Str("http://www.w3.org/2001/XMLSchema#"))
  ]

  /** The callbacks of the defaults, named by their place in the object. */
  const AutocompleteDefaults: Props := [
    ("getData", Func("autocomplete.getData")),
    ("autocompleteUrl", Func("autocomplete.autocompleteUrl")),
    ("elementLabel", Func("autocomplete.elementLabel")),
    ("elementUri", Func("autocomplete.elementUri"))
  ]

  const ListDefaults: Props := [
    ("listUrl", Func("list.listUrl")),
    ("listLocation", Func("list.listLocation")),
    ("elementLabel", Func("list.elementLabel")),
    ("elementUri", Func("list.elementUri"))
  ]

  const DatesDefaults: Props := [
    ("datesUrl", Func("dates.datesUrl")),
    ("elementLabel", Func("dates.elementLabel")),
    ("elementStart", Func("dates.elementStart")),
    ("elementEnd", Func("dates.elementEnd"))
  ]

  /** `defaultSettings`. */
  const DefaultSettings: Props := [
    ("langSearch", Null),
    ("config", Null),
    ("language", Str("en")),
    ("maxDepth", Num(4)),
    ("maxOr", Num(3)),
    ("addDistinct", Bool(true)),
    ("limit", Num(1000)),
    ("typePredicate", Str("<http://www.w3.org/1999/02/22-rdf-syntax-ns#type>")),
    ("defaultEndpoint", Null),
    ("sparqlPrefixes", Obj(DefaultPrefixes)),
    ("localCacheDataTtl", Num(1000 * 60 * 60 * 24)),
    ("debug", Bool(false)),
    ("submitButton", Bool(true)),
    ("dataEndpoints", Arr([])),
    ("autocomplete", Obj(AutocompleteDefaults)),
    ("list", Obj(ListDefaults)),
    ("dates", Obj(DatesDefaults))
  ]

  /** The default `elementLabel` of `autocomplete`, `list` and `dates`: `element.label.value`. */
  function DefaultElementLabel(element: Value): (r: Result<Value, JsError>)
    ensures r.Success? <==> !(element.Undefined? || element.Null?)
                            && !(Member(element, "label").value.Undefined? || Member(element, "label").value.Null?)
    ensures element.Obj? && Get(element.props, "label").Obj? ==>
              r == Success(Get(Get(element.props, "label").props, "value"))
  {
    Path(element, "label", "value")
  }

  /** The default `elementUri` of `autocomplete` and `list`: `element.uri.value`, with no
      fallback to a `value` field. */
  function DefaultElementUri(element: Value): (r: Result<Value, JsError>)
    ensures r.Success? <==> !(element.Undefined? || element.Null?)
                            && !(Member(element, "uri").value.Undefined? || Member(element, "uri").value.Null?)
    ensures element.Obj? && Get(element.props, "uri").Obj? ==>
              r == Success(Get(Get(element.props, "uri").props, "value"))
  {
    Path(element, "uri", "value")
  }

  /** The default `list.listLocation`: the response itself is the list of entries. */
  function DefaultListLocation(domain: string, property: string, range: string, data: Value): (r: Value)
    ensures r == data
  {
    data
  }

  /** The default `dates.elementStart` and `dates.elementEnd`: `element.start.year` and
      `element.stop.year`. */
  function DefaultElementStart(element: Value): (r: Result<Value, JsError>)
    ensures r.Success? <==> !(element.Undefined? || element.Null?)
                            && !(Member(element, "start").value.Undefined? || Member(element, "start").value.Null?)
    ensures element.Obj? && Get(element.props, "start").Obj? ==>
              r == Success(Get(Get(element.props, "start").props, "year"))
  {
    Path(element, "start", "year")
  }

  function DefaultElementEnd(element: Value): (r: Result<Value, JsError>)
    ensures r.Success? <==> !(element.Undefined? || element.Null?)
                            && !(Member(element, "stop").value.Undefined? || Member(element, "stop").value.Null?)
    ensures element.Obj? && Get(element.props, "stop").Obj? ==>
              r == Success(Get(Get(element.props, "stop").props, "year"))
  {
    Path(element, "stop", "year")
  }

  lemma DefaultsUniqueKeys()
    ensures UniqueKeys(DefaultSettings)
  {
  }

  lemma PrefixesFullyDefined()
    ensures FullyDefined(Obj(DefaultPrefixes))
  {
  }

  lemma AutocompleteFullyDefined()
    ensures FullyDefined(Obj(AutocompleteDefaults))
  {
  }

  lemma ListFullyDefined()
    ensures FullyDefined(Obj(ListDefaults))
  {
  }

  lemma DatesFullyDefined()
    ensures FullyDefined(Obj(DatesDefaults))
  {
  }

  /** The defaults name no property twice and hold no `undefined`, at every depth. */
  lemma DefaultsFullyDefined()
    ensures FullyDefined(Obj(DefaultSettings))
  {
    DefaultsUniqueKeys();
    PrefixesFullyDefined();
    AutocompleteFullyDefined();
    ListFullyDefined();
    DatesFullyDefined();
    forall i | 0 <= i < |DefaultSettings|
      ensures !DefaultSettings[i].1.Undefined? && FullyDefined(DefaultSettings[i].1)
    {
      if i == 9 {
        assert DefaultSettings[i].1 == Obj(DefaultPrefixes);
      } else if i == 14 {
        assert DefaultSettings[i].1 == Obj(AutocompleteDefaults);
      } else if i == 15 {
        assert DefaultSettings[i].1 == Obj(ListDefaults);
      } else if i == 16 {
        assert DefaultSettings[i].1 == Obj(DatesDefaults);
      } else {
        assert !DefaultSettings[i].1.Obj?;
      }
    }
  }

  /** The prefixes under `sparqlPrefixes`. */
  lemma DefaultPrefixesAt()
    ensures Get(DefaultSettings, "sparqlPrefixes") == Obj(DefaultPrefixes)
  {
    GetAt(DefaultSettings, 9);
  }

  /** `langSearch`, `config` and `defaultEndpoint` default to `null`. */
  lemma DefaultNullAt(key: string)
    requires key == "langSearch" || key == "config" || key == "defaultEndpoint"
    ensures Get(DefaultSettings, key) == Null
  {
    GetAt(DefaultSettings, 0);
    GetAt(DefaultSettings, 1);
    GetAt(DefaultSettings, 8);
  }
}
