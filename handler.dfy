/**
 * The base class of the widgets' data-source handlers (`AbstractHandler.ts`):
 * it holds the SPARQL endpoint, builds the URL that sends a query to it, reads
 * the bindings out of a SPARQL JSON response and builds the options of the
 * HTTP request, taking them from the `dataEndpoints` setting whose endpoint is
 * the handler's.
 */
module Handlers {
  import opened Wrappers
  import opened JsValues
  import opened Text
  import opened UriEncoding
  import Defaults

  /** A string argument that a caller may also pass as `null` or `undefined`. */
  datatype Nullable = Given(s: string) | NullArg | UndefinedArg

  /** `"" + a`: how string concatenation renders the argument. */
  function Render(a: Nullable): (r: string)
    ensures a.Given? ==> r == a.s
    ensures a.NullArg? ==> r == "null"
    ensures a.UndefinedArg? ==> r == "undefined"
  {
    match a
    case Given(s) => s
    case NullArg => "null"
    case UndefinedArg => "undefined"
  }

  const DefaultSearchPath: string := "rdfs:label"

  const AcceptHeader: string := "application/sparql-results+json, application/json, */*;q=0.01"

  /** The request options before any `dataEndpoints` entry applies: the `Headers` instance is
      modelled as a plain object holding its one header. */
  const DefaultRequestOptions: Props := [
    ("method", Str("GET")),
    ("headers", Obj([("Accept", Str(AcceptHeader))])),
    ("mode", Str("cors")),
    ("cache", Str("default"))
  ]

  /** The character that separates the endpoint from the query parameter: `&` when the endpoint
      already holds a `?` after its first character, `?` otherwise. */
  function Separator(endpoint: string): (c: char)
    ensures c == '&' <==> '?' in endpoint && endpoint[0] != '?'
  {
    if IndexOf(endpoint, '?') > 0 then '&' else '?'
  }

  /** Whether `val?.endpoint === url`. */
  predicate MatchesEndpoint(val: Value, url: string)
  {
    val.Obj? && Get(val.props, "endpoint") == Str(url)
  }

  /** `entries.find(val => val?.endpoint === url)`, as an index: the first entry whose endpoint
      is `url`, or -1 when none is. */
  function FirstMatch(entries: seq<Value>, url: string): (i: int)
    ensures -1 <= i < |entries|
    ensures i == -1 <==> forall j :: 0 <= j < |entries| ==> !MatchesEndpoint(entries[j], url)
    ensures i >= 0 ==> MatchesEndpoint(entries[i], url)
                       && forall j :: 0 <= j < i ==> !MatchesEndpoint(entries[j], url)
  {
    if entries == [] then -1
    else if MatchesEndpoint(entries[0], url) then 0
    else
      var i := FirstMatch(entries[1..], url);
      assert forall j :: 1 <= j < |entries| ==> entries[j] == entries[1..][j - 1];
      if i == -1 then -1 else i + 1
  }

  /** `getSettings().dataEndpoints`, on which `find` is called: a `TypeError` when the settings
      are unset or `dataEndpoints` is not an array. */
  function DataEndpoints(settings: Value): (r: Result<seq<Value>, JsError>)
    ensures r.Success? <==> settings.Obj? && Get(settings.props, "dataEndpoints").Arr?
    ensures r.Success? ==> r.value == Get(settings.props, "dataEndpoints").items
  {
    var d :- Member(settings, "dataEndpoints");
    if d.Arr? then Success(d.items) else Failure(TypeError("dataEndpoints.find is not a function"))
  }

  /** The request options and endpoint after the loop over `Object.entries(config)` has gone
      through `entries`: the `endpoint` entry sets the endpoint (a string value; a value of another
      type is not represented), every other entry sets the request option of its name. */
  function ApplyConfig(entries: Props, options: Props, url: string): (Props, string)
    decreases |entries|
  {
    if entries == [] then (options, url)
    else
      var (o, u) := ApplyConfig(entries[..|entries| - 1], options, url);
      var (k, v) := entries[|entries| - 1];
      if k == "endpoint" then (o, if v.Str? then v.s else u) else (Put(o, k, v), u)
  }

  /** The request options `buildHttpRequest` returns for the endpoint `url`, with the endpoint
      it leaves in the handler. */
  function RequestFor(entries: seq<Value>, url: string): (Props, string)
  {
    var i := FirstMatch(entries, url);
    if i < 0 then (DefaultRequestOptions, url) else ApplyConfig(entries[i].props, DefaultRequestOptions, url)
  }

  class Handler {
    var sparqlEndpointUrl: string
    var semanticPostProcess: string -> string
    var language: Nullable
    var searchPath: string
    var listOrder: string

    /** `new Handler(sparqlEndpointUrl, semanticPostProcess, language, searchPath)`: a `null` or
        `undefined` search path becomes `rdfs:label`, and the list order is alphabetical. */
    constructor(sparqlEndpointUrl: string, semanticPostProcess: string -> string, language: Nullable,
                searchPath: Nullable)
      ensures this.sparqlEndpointUrl == sparqlEndpointUrl
      ensures this.semanticPostProcess == semanticPostProcess
      ensures this.language == language
      ensures searchPath.Given? ==> this.searchPath == searchPath.s
      ensures !searchPath.Given? ==> this.searchPath == DefaultSearchPath
      ensures listOrder == "alphabetical"
    {
      this.sparqlEndpointUrl := sparqlEndpointUrl;
      this.semanticPostProcess := semanticPostProcess;
      this.language := language;
      this.searchPath := if searchPath.Given? then searchPath.s else DefaultSearchPath;
      listOrder := "alphabetical";
    }

    /** The constructor of `AbstractSparqlAutocompleteHandler`, which hands its `language` to the
        base constructor as the search path as well: the `searchPath` argument is ignored. */
    constructor ForAutocomplete(sparqlEndpointUrl: string, semanticPostProcess: string -> string,
                                language: Nullable, searchPath: Nullable)
      ensures this.sparqlEndpointUrl == sparqlEndpointUrl
      ensures this.semanticPostProcess == semanticPostProcess
      ensures this.language == language
      ensures language.Given? ==> this.searchPath == language.s
      ensures !language.Given? ==> this.searchPath == DefaultSearchPath
      ensures listOrder == "alphabetical"
    {
      this.sparqlEndpointUrl := sparqlEndpointUrl;
      this.semanticPostProcess := semanticPostProcess;
      this.language := language;
      this.searchPath := if language.Given? then language.s else DefaultSearchPath;
      listOrder := "alphabetical";
    }

    /** `buildURL(sparql)`: the endpoint, the separator, then a `query` parameter whose value
        decodes to the post-processed query and holds none of the URL delimiters `&`, `=`, `?`,
        `#`, space and `+`, then `&format=json`. */
    function BuildUrl(sparql: string): (url: string)
      reads this
      ensures var e := sparqlEndpointUrl;
              && |e| + 7 + 12 <= |url|
              && url[..|e|] == e
              && url[|e|] == Separator(e)
              && url[|e| + 1..|e| + 7] == "query="
              && url[|url| - 12..] == "&format=json"
              && Decode(url[|e| + 7..|url| - 12]) == Some(semanticPostProcess(sparql))
              && '&' !in url[|e| + 7..|url| - 12] && '#' !in url[|e| + 7..|url| - 12]
              && '=' !in url[|e| + 7..|url| - 12] && '?' !in url[|e| + 7..|url| - 12]
              && ' ' !in url[|e| + 7..|url| - 12] && '+' !in url[|e| + 7..|url| - 12]
    {
      var e := sparqlEndpointUrl;
      var q := Encode(semanticPostProcess(sparql));
      var url := e + [Separator(e)] + "query=" + q + "&format=json";
      assert url[|e| + 7..|url| - 12] == q;
      DecodeEncode(semanticPostProcess(sparql));
      EncodeHasNoDelimiter(semanticPostProcess(sparql));
      url
    }

    /** `listLocation(domain, property, range, data)`: `data.results.bindings`. */
    function ListLocation(domain: Value, property: Value, range: Value, data: Value): (r: Result<Value, JsError>)
      ensures r.Success? <==> !(data.Undefined? || data.Null?)
                              && !(Member(data, "results").value.Undefined? || Member(data, "results").value.Null?)
      ensures data.Obj? && Get(data.props, "results").Obj? ==>
                r == Success(Get(Get(data.props, "results").props, "bindings"))
    {
      Path(data, "results", "bindings")
    }

    /** `elementLabel(element)`: `element.label.value`. */
    function ElementLabel(element: Value): (r: Result<Value, JsError>)
      ensures r.Success? <==> !(element.Undefined? || element.Null?)
                              && !(Member(element, "label").value.Undefined? || Member(element, "label").value.Null?)
      ensures element.Obj? && Get(element.props, "label").Obj? ==>
                r == Success(Get(Get(element.props, "label").props, "value"))
    {
      Path(element, "label", "value")
    }

    /** `elementUri(element)`: `element.uri.value` when `uri` is truthy, else `element.value.value`
        when `value` is truthy, else `undefined`; only a `null` or `undefined` element throws. A
        truthy `uri` or `value` that is not an object has no `value` property and gives `undefined`. */
    function ElementUri(element: Value): (r: Result<Value, JsError>)
      ensures r.Failure? <==> element.Undefined? || element.Null?
      ensures element.Obj? && Get(element.props, "uri").Obj? ==>
                r == Success(Get(Get(element.props, "uri").props, "value"))
      ensures element.Obj? && !Truthy(Get(element.props, "uri")) && Get(element.props, "value").Obj? ==>
                r == Success(Get(Get(element.props, "value").props, "value"))
      ensures element.Obj? && !Truthy(Get(element.props, "uri")) && !Truthy(Get(element.props, "value")) ==>
                r == Success(Undefined)
      ensures element.Obj? && Truthy(Get(element.props, "uri")) && !Get(element.props, "uri").Obj? ==>
                r == Success(Undefined)
      ensures element.Obj? && !Truthy(Get(element.props, "uri")) && Truthy(Get(element.props, "value"))
              && !Get(element.props, "value").Obj? ==>
                r == Success(Undefined)
      ensures !(element.Obj? || element.Undefined? || element.Null?) ==> r == Success(Undefined)
    {
      var uri :- Member(element, "uri");
      if Truthy(uri) then Member(uri, "value")
      else
        var value := Member(element, "value").value;
        if Truthy(value) then Member(value, "value") else Success(Undefined)
    }

    /** `enableMatch(domain, property, range)`: a base handler never asks for matching. */
    function EnableMatch(domain: Value, property: Value, range: Value): (r: bool)
      ensures !r
    {
      false
    }

    /** `buildHttpRequest()`, with `settings` standing for `getSettings()`: starts from GET, the
        SPARQL JSON `Accept` header, `cors` and the default cache, then applies the first
        `dataEndpoints` entry whose `endpoint` is this handler's, entry by entry. */
    method BuildHttpRequest(settings: Value) returns (r: Result<Props, JsError>)
      modifies this`sparqlEndpointUrl
      ensures r.Success? <==> DataEndpoints(settings).Success?
      ensures r.Failure? ==> sparqlEndpointUrl == old(sparqlEndpointUrl)
      ensures r.Success? ==>
                (r.value, sparqlEndpointUrl) == RequestFor(DataEndpoints(settings).value, old(sparqlEndpointUrl))
    {
      var endpoints := DataEndpoints(settings);
      if endpoints.Failure? {
        return Failure(endpoints.error);
      }
      var entries := endpoints.value;
      var options := DefaultRequestOptions;
      var found := FirstMatch(entries, sparqlEndpointUrl);
      if found >= 0 {
        var config := entries[found].props;
        ghost var url0 := sparqlEndpointUrl;
        var i := 0;
        while i < |config|
          invariant 0 <= i <= |config|
          invariant (options, sparqlEndpointUrl) == ApplyConfig(config[..i], DefaultRequestOptions, url0)
        {
          var (key, value) := config[i];
          assert config[..i + 1][..i] == config[..i];
          if key == "endpoint" {
            if value.Str? {
              sparqlEndpointUrl := value.s;
            }
          } else {
            options := Put(options, key, value);
          }
          i := i + 1;
        }
        assert config[..|config|] == config;
      }
      return Success(options);
    }
  }

  // ---------------------------------------------------------------------------
  // What the request options hold.

  /** Reading a name in an object extended by one entry at its end. */
  lemma {:induction false} GetSnoc(p: Props, x: (string, Value), k: string)
    ensures Get(p + [x], k) == if k in Keys(p) then Get(p, k) else if k == x.0 then x.1 else Undefined
  {
    if p == [] {
      assert [] + [x] == [x];
    } else {
      KeysCons(p);
      assert (p + [x])[1..] == p[1..] + [x];
      GetSnoc(p[1..], x, k);
    }
  }

  lemma KeysSnoc(p: Props, x: (string, Value))
    ensures Keys(p + [x]) == Keys(p) + {x.0}
  {
    var q := p + [x];
    forall k | k in Keys(q) ensures k in Keys(p) + {x.0} {
      var i :| 0 <= i < |q| && q[i].0 == k;
      if i < |p| { assert p[i] == q[i]; }
    }
    forall k | k in Keys(p) ensures k in Keys(q) {
      var i :| 0 <= i < |p| && p[i].0 == k;
      assert q[i] == p[i];
    }
    assert q[|p|] == x;
  }

  /** Every request option other than the endpoint is taken from the configuration where it
      names it, and keeps its default otherwise. */
  ghost predicate OptionsFrom(options: Props, config: Props, defaults: Props)
  {
    forall k :: k != "endpoint" ==>
      Get(options, k) == if k in Keys(config) then Get(config, k) else Get(defaults, k)
  }

  lemma {:induction false} ApplyConfigOptions(entries: Props, options: Props, url: string)
    requires UniqueKeys(entries)
    ensures OptionsFrom(ApplyConfig(entries, options, url).0, entries, options)
    decreases |entries|
  {
    if entries != [] {
      var front := entries[..|entries| - 1];
      var x := entries[|entries| - 1];
      assert front + [x] == entries;
      assert UniqueKeys(front);
      ApplyConfigOptions(front, options, url);
      KeysSnoc(front, x);
      forall k | k != "endpoint"
        ensures Get(ApplyConfig(entries, options, url).0, k)
                == if k in Keys(entries) then Get(entries, k) else Get(options, k)
      {
        GetSnoc(front, x, k);
      }
    }
  }

  /** The endpoint the loop leaves: the configuration's `endpoint` when it is a string (the last
      such entry, though an object names it at most once), the handler's otherwise. */
  lemma {:induction false} ApplyConfigEndpoint(entries: Props, options: Props, url: string)
    requires UniqueKeys(entries)
    ensures ApplyConfig(entries, options, url).1 ==
              if Get(entries, "endpoint").Str? then Get(entries, "endpoint").s else url
    decreases |entries|
  {
    if entries != [] {
      var front := entries[..|entries| - 1];
      var x := entries[|entries| - 1];
      assert front + [x] == entries;
      assert UniqueKeys(front);
      ApplyConfigEndpoint(front, options, url);
      GetSnoc(front, x, "endpoint");
    }
  }

  /** Without a `dataEndpoints` entry for the handler's endpoint, the request has the default
      options and the endpoint stays. */
  lemma RequestWithoutConfig(entries: seq<Value>, url: string)
    requires forall j :: 0 <= j < |entries| ==> !MatchesEndpoint(entries[j], url)
    ensures RequestFor(entries, url) == (DefaultRequestOptions, url)
  {
  }

  /** With an entry for the handler's endpoint, the first such entry overrides the default
      options name by name and adds the others; the endpoint it names is the handler's, so the
      handler keeps its endpoint. */
  lemma RequestWithConfig(entries: seq<Value>, url: string, i: nat)
    requires i < |entries| && MatchesEndpoint(entries[i], url)
    requires forall j :: 0 <= j < i ==> !MatchesEndpoint(entries[j], url)
    requires UniqueKeys(entries[i].props)
    ensures OptionsFrom(RequestFor(entries, url).0, entries[i].props, DefaultRequestOptions)
    ensures RequestFor(entries, url).1 == url
  {
    ApplyConfigOptions(entries[i].props, DefaultRequestOptions, url);
    ApplyConfigEndpoint(entries[i].props, DefaultRequestOptions, url);
  }

  /** A handler's `elementUri` falls back to `element.value.value` where the default
      `elementUri` of the settings, which reads only `element.uri.value`, throws. */
  lemma ElementUriFallsBack(h: Handler, x: Value)
    ensures var element := Obj([("value", Obj([("value", x)]))]);
            && h.ElementUri(element) == Success(x)
            && Defaults.DefaultElementUri(element).Failure?
  {
    var inner: Props := [("value", x)];
    var element: Props := [("value", Obj(inner))];
    assert Get(element, "uri") == Undefined;
    assert Get(element, "value") == Obj(inner);
    assert Get(inner, "value") == x;
  }

  /** Where the element's `uri` is an object, the handler and the default agree. */
  lemma ElementUriAgreesWithDefault(h: Handler, element: Value)
    requires element.Obj? && Get(element.props, "uri").Obj?
    ensures h.ElementUri(element) == Defaults.DefaultElementUri(element)
  {
  }
}
