/**
 * The reading of the host element's attributes (`SparnaturalAttributes.ts`).
 * `getAttribute` is a map from attribute name to text (a missing name reads as
 * `null`); `JSON.parse` is a parameter that gives the parsed value, or `None`
 * where it throws.
 */
module Attributes {
  import opened Wrappers
  import opened JsValues
  import opened Text

  type Element = map<string, string>

  /** `JSON.parse`: `None` where it throws a `SyntaxError`. */
  type JsonParser = string -> Option<Value>

  /** How reading the attributes can fail. */
  datatype AttributeError =
    | JsonSyntaxError(attribute: string)   // `JSON.parse` throws on an attribute read as JSON
    | MissingConfigOrEndpoint              // `Error('No config or deault endpoint provided!')`
    | DataEndpointsNotArray                // `arr.forEach` on what is not an array
    | EntryNotObject(index: nat)           // the `in` operator on a primitive entry
    | EntryWithoutEndpoint(index: nat)     // `Error('Object in dataEndpoints must specify an endpoint!')`

  /** The fields of a `SparnaturalAttributes` object. */
  datatype SparnaturalAttributes = SparnaturalAttributes(
    config: Value,
    defaultEndpoint: Value,
    language: Value,
    sparqlPrefixes: Value,
    addDistinct: Value,
    limit: Value,
    typePredicate: Value,
    maxDepth: Value,
    maxOr: Value,
    localCacheDataTtl: Value,
    debug: Value,
    submitButton: Value,
    dataEndpoints: Value)

  /** `element.getAttribute(attribute)` is truthy: present and not empty. */
  predicate Present(element: Element, attribute: string)
  {
    attribute in element && element[attribute] != ""
  }

  /** `#read(element, attribute, asJson)`. */
  function Read(element: Element, attribute: string, asJson: bool, parse: JsonParser): (r: Result<Value, AttributeError>)
    ensures !Present(element, attribute) ==> r == Success(Undefined)
    ensures Present(element, attribute) && !asJson ==> r == Success(Str(element[attribute]))
    ensures Present(element, attribute) && asJson ==>
              match parse(element[attribute])
              case Some(v) => r == Success(v)
              case None => r == Failure(JsonSyntaxError(attribute))
  {
    if !Present(element, attribute) then Success(Undefined)
    else if !asJson then Success(Str(element[attribute]))
    else match parse(element[attribute])
      case Some(v) => Success(v)
      case None => Failure(JsonSyntaxError(attribute))
  }

  /** `#isJSON(json)`: whether `JSON.parse` accepts it; `null` is parsed as the text `null`. */
  function IsJson(json: Option<string>, parse: JsonParser): (r: bool)
    ensures json.Some? ==> (r <==> parse(json.value).Some?)
    ensures json.None? ==> (r <==> parse("null").Some?)
  {
    parse(if json.Some? then json.value else "null").Some?
  }

  /** `config`: `src` read as JSON exactly when it parses as JSON. */
  function Config(element: Element, parse: JsonParser): (r: Value)
    ensures !Present(element, "src") ==> r == Undefined
    ensures Present(element, "src") && parse(element["src"]).Some? ==> r == parse(element["src"]).value
    ensures Present(element, "src") && parse(element["src"]).None? ==> r == Str(element["src"])
  {
    var src := if "src" in element then Some(element["src"]) else None;
    Read(element, "src", IsJson(src, parse), parse).value
  }

  // ---------------------------------------------------------------------------
  // The `prefix` attribute.

  /** The end of the run of white space that starts at `q`. */
  function SpaceRun(s: string, q: nat): (e: nat)
    requires q <= |s|
    ensures q <= e <= |s|
    ensures forall i :: q <= i < e ==> IsJsSpace(s[i])
    ensures e == |s| || !IsJsSpace(s[e])
    decreases |s| - q
  {
    if q < |s| && IsJsSpace(s[q]) then SpaceRun(s, q + 1) else q
  }

  /** Where a match of `/:\s+|\s+/` that starts at `q` ends, or -1 when none starts there: the
      first alternative is tried first, and `\s+` takes the whole run of white space. */
  function MatchAt(s: string, q: nat): (e: int)
    requires q < |s|
    ensures e == -1 || q < e <= |s|
    ensures e == -1 <==> !IsJsSpace(s[q]) && !(s[q] == ':' && q + 1 < |s| && IsJsSpace(s[q + 1]))
  {
    if s[q] == ':' && q + 1 < |s| && IsJsSpace(s[q + 1]) then SpaceRun(s, q + 1)
    else if IsJsSpace(s[q]) then SpaceRun(s, q)
    else -1
  }

  /** `s.split(/:\s+|\s+/)` from the last cut `p`, looking for the next match from `q` on
      (the `@@split` algorithm of ECMA-262 for a pattern that never matches the empty text). */
  function SplitFrom(s: string, p: nat, q: nat): (tokens: seq<string>)
    requires p <= q <= |s|
    ensures |tokens| >= 1
    decreases |s| - q
  {
    if q == |s| then [s[p..]]
    else
      var e := MatchAt(s, q);
      if e < 0 then SplitFrom(s, p, q + 1) else [s[p..q]] + SplitFrom(s, e, e)
  }

  /** A text the pattern `/:\s+|\s+/` matches as a whole: a run of white space, possibly
      after one `:`. */
  predicate IsSeparator(t: string)
  {
    var k := if |t| > 0 && t[0] == ':' then 1 else 0;
    k < |t| && forall i :: k <= i < |t| ==> IsJsSpace(t[i])
  }

  /** The texts `SplitFrom(s, p, q)` cuts out between its tokens, in order. */
  function Separators(s: string, p: nat, q: nat): (seps: seq<string>)
    requires p <= q <= |s|
    ensures |seps| + 1 == |SplitFrom(s, p, q)|
    ensures forall j :: 0 <= j < |seps| ==> IsSeparator(seps[j])
    decreases |s| - q
  {
    if q == |s| then []
    else
      var e := MatchAt(s, q);
      if e < 0 then Separators(s, p, q + 1) else [s[q..e]] + Separators(s, e, e)
  }

  /** `tokens[0] + seps[0] + tokens[1] + ... + tokens[n]`. */
  function Interleave(tokens: seq<string>, seps: seq<string>): string
    requires |tokens| == |seps| + 1
    decreases |seps|
  {
    if |seps| == 0 then tokens[0] else tokens[0] + seps[0] + Interleave(tokens[1..], seps[1..])
  }

  /** Splitting loses nothing: the tokens, rejoined with the separators between them, give back
      the text from the last cut on. */
  lemma {:induction false} SplitFromCovers(s: string, p: nat, q: nat)
    requires p <= q <= |s|
    ensures Interleave(SplitFrom(s, p, q), Separators(s, p, q)) == s[p..]
    decreases |s| - q
  {
    if q < |s| {
      var e := MatchAt(s, q);
      if e < 0 {
        SplitFromCovers(s, p, q + 1);
      } else {
        SplitFromCovers(s, e, e);
        var tokens, seps := SplitFrom(s, p, q), Separators(s, p, q);
        assert tokens[1..] == SplitFrom(s, e, e);
        assert seps[1..] == Separators(s, e, e);
        assert s[p..] == s[p..q] + s[q..e] + s[e..];
      }
    }
  }

  /** `attr.trim().split(/:\s+|\s+/)`. */
  function Tokens(attr: string): seq<string>
  {
    var s := Trim(attr);
    SplitFrom(s, 0, 0)
  }

  /** `{prefix: token.split(':')[0], iri: token.split(':').slice(1).join(':')}`: the text before
      the first `:` and the text after it (empty when the token has no `:`). */
  function PrefixPair(token: string): (pair: (string, string))
    ensures ':' !in pair.0
    ensures ':' in token ==> pair.0 + ":" + pair.1 == token
    ensures ':' !in token ==> pair == (token, "")
  {
    var i := IndexOf(token, ':');
    if i < 0 then (token, "")
    else
      assert token == token[..i] + ":" + token[i + 1..];
      (token[..i], token[i + 1..])
  }

  /** The prefix object after the loop has gone through `tokens`: each token defines (or
      redefines, the property being writable) the property named by its prefix. */
  function PrefixesFrom(tokens: seq<string>): Props
  {
    if tokens == [] then []
    else
      var pair := PrefixPair(tokens[|tokens| - 1]);
      Put(PrefixesFrom(tokens[..|tokens| - 1]), pair.0, Str(pair.1))
  }

  lemma PrefixesFromSnoc(tokens: seq<string>, t: string)
    ensures PrefixesFrom(tokens + [t]) == Put(PrefixesFrom(tokens), PrefixPair(t).0, Str(PrefixPair(t).1))
  {
    assert (tokens + [t])[..|tokens|] == tokens;
  }

  /** The result of `#parsePrefixes(element)`. */
  function Prefixes(element: Element): Value
  {
    if !Present(element, "prefix") then Undefined else Obj(PrefixesFrom(Tokens(element["prefix"])))
  }

  /** `#parsePrefixes(element)`. `Object.defineProperty` never throws here (a new property is
      defined writable, so redefining it is allowed), so the `catch` is never reached. */
  method ParsePrefixes(element: Element) returns (r: Value)
    ensures r == Prefixes(element)
  {
    if !Present(element, "prefix") {
      return Undefined;
    }
    var prefixArray := Tokens(element["prefix"]);
    var sparqlPrefixes: Props := [];
    for i := 0 to |prefixArray|
      invariant sparqlPrefixes == PrefixesFrom(prefixArray[..i])
    {
      var pair := PrefixPair(prefixArray[i]);
      PrefixesFromSnoc(prefixArray[..i], prefixArray[i]);
      assert prefixArray[..i] + [prefixArray[i]] == prefixArray[..i + 1];
      sparqlPrefixes := Put(sparqlPrefixes, pair.0, Str(pair.1));
    }
    assert prefixArray[..|prefixArray|] == prefixArray;
    return Obj(sparqlPrefixes);
  }

  // ---------------------------------------------------------------------------
  // The `dataEndpoints` attribute.

  /** What `"endpoint" in o` does with one entry: a primitive makes `in` throw, and an object
      (an array or a function included) without that property fails the check. */
  function EntryError(o: Value, index: nat): (r: Option<AttributeError>)
    ensures r.None? <==> o.Obj? && "endpoint" in Keys(o.props)
  {
    match o
    case Obj(p) => if "endpoint" in Keys(p) then None else Some(EntryWithoutEndpoint(index))
    case Arr(_) => Some(EntryWithoutEndpoint(index))
    case Func(_) => Some(EntryWithoutEndpoint(index))
    case _ => Some(EntryNotObject(index))
  }

  /** The first entry that `forEach` rejects, or -1. */
  function FirstBadEntry(arr: seq<Value>): (i: int)
    ensures -1 <= i < |arr|
    ensures i == -1 <==> forall j :: 0 <= j < |arr| ==> EntryError(arr[j], j).None?
    ensures i >= 0 ==> EntryError(arr[i], i).Some? && forall j :: 0 <= j < i ==> EntryError(arr[j], j).None?
    decreases |arr|
  {
    if arr == [] then -1
    else
      var i := FirstBadEntry(arr[..|arr| - 1]);
      if i >= 0 then i
      else if EntryError(arr[|arr| - 1], |arr| - 1).Some? then |arr| - 1
      else -1
  }

  /** The result of `#parseDataEndpoints(element)`: `undefined` without the attribute, the parsed
      array when every entry is an object that names an endpoint, and otherwise the error of the
      first entry that is not (invalid JSON leaves the array undefined, so `forEach` throws). */
  function DataEndpointsOf(element: Element, parse: JsonParser): (r: Result<Value, AttributeError>)
    ensures !Present(element, "dataEndpoints") ==> r == Success(Undefined)
    ensures Present(element, "dataEndpoints") ==>
              (r.Success? <==> && parse(element["dataEndpoints"]).Some?
                               && parse(element["dataEndpoints"]).value.Arr?
                               && forall j :: 0 <= j < |parse(element["dataEndpoints"]).value.items| ==>
                                    var o := parse(element["dataEndpoints"]).value.items[j];
                                    o.Obj? && "endpoint" in Keys(o.props))
    ensures Present(element, "dataEndpoints") && r.Success? ==> r.value == parse(element["dataEndpoints"]).value
  {
    if !Present(element, "dataEndpoints") then Success(Undefined)
    else
      var parsed := parse(element["dataEndpoints"]);
      if parsed.None? || !parsed.value.Arr? then Failure(DataEndpointsNotArray)
      else
        var bad := FirstBadEntry(parsed.value.items);
        if bad >= 0 then Failure(EntryError(parsed.value.items[bad], bad).value) else Success(parsed.value)
  }

  /** `#parseDataEndpoints(element)`: the `forEach` over the parsed entries stops at the first
      entry it rejects. */
  method ParseDataEndpoints(element: Element, parse: JsonParser) returns (r: Result<Value, AttributeError>)
    ensures r == DataEndpointsOf(element, parse)
  {
    if !Present(element, "dataEndpoints") {
      return Success(Undefined);
    }
    var arr := parse(Read(element, "dataEndpoints", false, parse).value.s);
    if arr.None? || !arr.value.Arr? {
      return Failure(DataEndpointsNotArray);
    }
    var items := arr.value.items;
    for i := 0 to |items|
      invariant forall j :: 0 <= j < i ==> EntryError(items[j], j).None?
    {
      var error := EntryError(items[i], i);
      if error.Some? {
        assert FirstBadEntry(items) == i;
        return Failure(error.value);
      }
    }
    assert FirstBadEntry(items) == -1;
    return Success(arr.value);
  }

  // ---------------------------------------------------------------------------
  // The constructor.

  /** `new SparnaturalAttributes(element)`: the fields in the constructor's order, failing with
      the first error it throws. */
  function Construct(element: Element, parse: JsonParser): (r: Result<SparnaturalAttributes, AttributeError>)
    ensures r == Failure(MissingConfigOrEndpoint) <==>
              !Truthy(Config(element, parse)) || !Truthy(Read(element, "endpoint", false, parse).value)
  {
    var config := Config(element, parse);
    var defaultEndpoint := Read(element, "endpoint", false, parse).value;
    if !Truthy(config) || !Truthy(defaultEndpoint) then Failure(MissingConfigOrEndpoint)
    else
      var language := Read(element, "lang", false, parse).value;
      var sparqlPrefixes := Prefixes(element);
      var addDistinct :- Read(element, "distinct", true, parse);
      var limit :- Read(element, "limit", true, parse);
      var typePredicate := Read(element, "typePredicate", false, parse).value;
      var maxDepth := Read(element, "maxDepth", false, parse).value;
      var maxOr := Read(element, "maxOr", false, parse).value;
      var localCacheDataTtl :- Read(element, "localCacheDataTtl", true, parse);
      var debug :- Read(element, "debug", true, parse);
      var submitButton :- Read(element, "submitButton", true, parse);
      var dataEndpoints :- DataEndpointsOf(element, parse);
      Success(SparnaturalAttributes(config, defaultEndpoint, language, sparqlPrefixes, addDistinct, limit,
                                    typePredicate, maxDepth, maxOr, localCacheDataTtl, debug, submitButton,
                                    dataEndpoints))
  }

  // ---------------------------------------------------------------------------
  // Properties.

  /** The attributes read as JSON. */
  predicate JsonAttribute(a: string)
  {
    a == "distinct" || a == "limit" || a == "localCacheDataTtl" || a == "debug" || a == "submitButton"
  }

  /** The value of a JSON attribute: `undefined` when absent or empty, else what it parses to. */
  function JsonField(element: Element, a: string, parse: JsonParser): Value
  {
    if Present(element, a) && parse(element[a]).Some? then parse(element[a]).value else Undefined
  }

  /** The value of a raw attribute: `undefined` when absent or empty, else its text. */
  function RawField(element: Element, a: string): Value
  {
    if Present(element, a) then Str(element[a]) else Undefined
  }

  /** A successful construction maps each attribute to its field: `lang`, `typePredicate`,
      `maxDepth` and `maxOr` as their text, `distinct`, `limit`, `localCacheDataTtl`, `debug` and
      `submitButton` as parsed JSON. */
  lemma ConstructFields(element: Element, parse: JsonParser)
    requires Construct(element, parse).Success?
    ensures var a := Construct(element, parse).value;
            && a.config == Config(element, parse) && Truthy(a.config)
            && a.defaultEndpoint == RawField(element, "endpoint") && Truthy(a.defaultEndpoint)
            && a.language == RawField(element, "lang")
            && a.typePredicate == RawField(element, "typePredicate")
            && a.maxDepth == RawField(element, "maxDepth")
            && a.maxOr == RawField(element, "maxOr")
            && a.addDistinct == JsonField(element, "distinct", parse)
            && a.limit == JsonField(element, "limit", parse)
            && a.localCacheDataTtl == JsonField(element, "localCacheDataTtl", parse)
            && a.debug == JsonField(element, "debug", parse)
            && a.submitButton == JsonField(element, "submitButton", parse)
            && a.sparqlPrefixes == Prefixes(element)
            && a.dataEndpoints == DataEndpointsOf(element, parse).value
  {
  }

  /** Once `src` and `endpoint` are truthy, a JSON attribute that does not parse makes the
      construction fail. */
  lemma ConstructRejectsBadJson(element: Element, parse: JsonParser, a: string)
    requires Truthy(Config(element, parse)) && Present(element, "endpoint")
    requires JsonAttribute(a) && Present(element, a) && parse(element[a]).None?
    ensures Construct(element, parse).Failure?
  {
  }

  /** In an object without repeated names, writing a property keeps its position; the prefixes
      never hold a name twice. */
  lemma {:induction false} PrefixesUnique(tokens: seq<string>)
    ensures UniqueKeys(PrefixesFrom(tokens))
    decreases |tokens|
  {
    if tokens != [] {
      var pair := PrefixPair(tokens[|tokens| - 1]);
      PrefixesUnique(tokens[..|tokens| - 1]);
      PutKeepsUnique(PrefixesFrom(tokens[..|tokens| - 1]), pair.0, Str(pair.1));
    }
  }

  /** The IRI of the last token whose prefix is `k`. */
  function LastIri(tokens: seq<string>, k: string): Option<string>
    decreases |tokens|
  {
    if tokens == [] then None
    else if PrefixPair(tokens[|tokens| - 1]).0 == k then Some(PrefixPair(tokens[|tokens| - 1]).1)
    else LastIri(tokens[..|tokens| - 1], k)
  }

  /** Each prefix maps to the IRI of the last token that names it; a name no token gives is
      absent. */
  lemma {:induction false} PrefixesLastWins(tokens: seq<string>, k: string)
    ensures Get(PrefixesFrom(tokens), k) == if LastIri(tokens, k).Some? then Str(LastIri(tokens, k).value) else Undefined
    decreases |tokens|
  {
    if tokens != [] {
      PrefixesLastWins(tokens[..|tokens| - 1], k);
    }
  }

  predicate NoSpace(t: string)
  {
    forall i :: 0 <= i < |t| ==> !IsJsSpace(t[i])
  }

  /** Scanning past positions where no match starts leaves the tokens as they are. */
  lemma {:induction false} SplitSkips(s: string, p: nat, q: nat, k: nat)
    requires p <= q <= k <= |s|
    requires forall i :: q <= i < k ==> MatchAt(s, i) == -1
    ensures SplitFrom(s, p, q) == SplitFrom(s, p, k)
    decreases k - q
  {
    if q < k {
      SplitSkips(s, p, q + 1, k);
    }
  }

  /** The tokens hold no white space: every white-space character is part of a separator. */
  lemma {:induction false} SplitFromNoSpace(s: string, p: nat, q: nat)
    requires p <= q <= |s| && forall i :: p <= i < q ==> !IsJsSpace(s[i])
    ensures forall j :: 0 <= j < |SplitFrom(s, p, q)| ==> NoSpace(SplitFrom(s, p, q)[j])
    decreases |s| - q
  {
    if q < |s| {
      var e := MatchAt(s, q);
      if e < 0 {
        SplitFromNoSpace(s, p, q + 1);
      } else {
        SplitFromNoSpace(s, e, e);
        var rest := SplitFrom(s, e, e);
        assert SplitFrom(s, p, q) == [s[p..q]] + rest;
        forall j | 0 <= j < |SplitFrom(s, p, q)| ensures NoSpace(SplitFrom(s, p, q)[j]) {
          if j > 0 {
            assert SplitFrom(s, p, q)[j] == rest[j - 1];
          }
        }
      }
    }
  }

  /** The tokens of an attribute, rejoined with the separators the pattern matched, give back
      the trimmed attribute; every separator is a match of `/:\s+|\s+/`. */
  lemma TokensCover(attr: string)
    ensures |Separators(Trim(attr), 0, 0)| + 1 == |Tokens(attr)|
    ensures Interleave(Tokens(attr), Separators(Trim(attr), 0, 0)) == Trim(attr)
  {
    SplitFromCovers(Trim(attr), 0, 0);
  }

  lemma TokensNoSpace(attr: string)
    ensures forall j :: 0 <= j < |Tokens(attr)| ==> NoSpace(Tokens(attr)[j])
  {
    SplitFromNoSpace(Trim(attr), 0, 0);
  }

  lemma TrimWord(s: string)
    requires s != [] && NoSpace(s)
    ensures Trim(s) == s
  {
    assert TrimStart(s) == s;
    assert TrimEnd(s) == s;
  }

  /** An attribute without white space is one token. */
  lemma TokensOfWord(s: string)
    requires s != [] && NoSpace(s)
    ensures Tokens(s) == [s]
  {
    TrimWord(s);
    SplitSkips(s, 0, 0, |s|);
  }

  lemma PrefixPairOf(name: string, iri: string)
    requires ':' !in name
    ensures PrefixPair(name + ":" + iri) == (name, iri)
  {
    var token := name + ":" + iri;
    assert token[..|name|] == name && token[|name|] == ':';
    assert token[|name| + 1..] == iri;
  }

  /** A `prefix` attribute written as `name:iri` defines `name` as `iri`, later `:`s included:
      `"ex:http://e.org/"` gives `{ex: "http://e.org/"}`. */
  lemma PrefixOfWord(element: Element, name: string, iri: string)
    requires ':' !in name && NoSpace(name + ":" + iri)
    requires "prefix" in element && element["prefix"] == name + ":" + iri
    ensures Prefixes(element) == Obj([(name, Str(iri))])
  {
    var token := name + ":" + iri;
    TokensOfWord(token);
    PrefixPairOf(name, iri);
    PrefixesFromSnoc([], token);
    assert [] + [token] == [token];
  }

  lemma TrimUnchanged(s: string)
    requires s != [] && !IsJsSpace(s[0]) && !IsJsSpace(s[|s| - 1])
    ensures Trim(s) == s
  {
    assert TrimStart(s) == s;
    assert TrimEnd(s) == s;
  }

  /** No match starts in a suffix without white space. */
  lemma NoMatchInWord(s: string, q: nat)
    requires q <= |s| && NoSpace(s[q..])
    ensures forall i :: q <= i < |s| ==> MatchAt(s, i) == -1
  {
    forall i | q <= i < |s| ensures MatchAt(s, i) == -1 {
      assert s[i] == s[q..][i - q];
      if i + 1 < |s| {
        assert s[i + 1] == s[q..][i + 1 - q];
      }
    }
  }

  /** A text without white space, from `q` on, is one last token. */
  lemma SplitWord(s: string, q: nat)
    requires q <= |s| && NoSpace(s[q..])
    ensures SplitFrom(s, q, q) == [s[q..]]
  {
    NoMatchInWord(s, q);
    SplitSkips(s, q, q, |s|);
  }

  /** Cutting at the first match. */
  lemma SplitAtFirstMatch(s: string, n: nat)
    requires n < |s| && MatchAt(s, n) >= 0
    requires forall i :: 0 <= i < n ==> MatchAt(s, i) == -1
    ensures SplitFrom(s, 0, 0) == [s[..n]] + SplitFrom(s, MatchAt(s, n), MatchAt(s, n))
  {
    SplitSkips(s, 0, 0, n);
  }

  /** The RDFa form is cut at the colon and the white space after it. */
  lemma TokensOfRdfaForm(name: string, iri: string)
    requires name != [] && ':' !in name && NoSpace(name)
    requires iri != [] && NoSpace(iri)
    ensures Tokens(name + ": " + iri) == [name, iri]
  {
    var s := name + ": " + iri;
    var n := |name|;
    assert s[..n] == name && s[n] == ':' && s[n + 1] == ' ' && s[n + 2..] == iri;
    assert s[|s| - 1] == iri[|iri| - 1];
    TrimUnchanged(s);
    forall i | 0 <= i < n ensures MatchAt(s, i) == -1 {
      assert s[i] == name[i];
    }
    assert SpaceRun(s, n + 2) == n + 2 by { assert s[n + 2] == iri[0]; }
    SplitAtFirstMatch(s, n);
    SplitWord(s, n + 2);
  }

  /** The RDFa form `name: iri`, with white space after the colon, is cut at `: ` into two
      tokens that the loop reads as two separate `prefix:iri` pairs: `name` gets the empty IRI
      and the IRI's scheme becomes a prefix of its own, so `"ex: http://e.org/"` gives
      `{ex: "", http: "//e.org/"}`. */
  lemma PrefixOfRdfaForm(element: Element, name: string, scheme: string, rest: string)
    requires name != [] && ':' !in name && NoSpace(name)
    requires scheme != name && ':' !in scheme && NoSpace(scheme + ":" + rest)
    requires "prefix" in element && element["prefix"] == name + ": " + scheme + ":" + rest
    ensures Prefixes(element) == Obj([(name, Str("")), (scheme, Str(rest))])
  {
    var iri := scheme + ":" + rest;
    assert element["prefix"] == name + ": " + iri;
    TokensOfRdfaForm(name, iri);
    PrefixesOfPair(name, scheme, rest);
  }

  lemma PrefixesOfPair(name: string, scheme: string, rest: string)
    requires ':' !in name && ':' !in scheme && scheme != name
    ensures PrefixesFrom([name, scheme + ":" + rest]) == [(name, Str("")), (scheme, Str(rest))]
  {
    var iri := scheme + ":" + rest;
    PrefixPairOf(scheme, rest);
    PrefixesFromSnoc([], name);
    assert [] + [name] == [name];
    PrefixesFromSnoc([name], iri);
    assert [name] + [iri] == [name, iri];
    var first: Props := [(name, Str(""))];
    assert Keys(first) == {name};
    PutNewAppends(first, scheme, Str(rest));
  }
}
