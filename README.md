# Sparnatural core, modelled in Dafny

Sparnatural is a visual SPARQL query builder that runs in the browser. This
project models the parts of it that hold no user interface. These are the
pieces whose behaviour decides which queries and requests the builder sends:

- **Settings** (`defaultSettings.ts`): the default settings, their default
  callbacks, and the recursive `extend` that deep-merges the defaults with the
  options the page passes to `mergeSettings`. `getSettings` reads the result.
- **Host-element attributes** (`SparnaturalAttributes.ts`): how the attributes
  of the `<spar-natural>` element are read.
  - `src` is read as JSON when it parses; `endpoint` and `lang` are read as text.
  - The flags `distinct`, `limit`, `debug`, `submitButton` and
    `localCacheDataTtl` are read as JSON.
  - The RDFa-style `prefix` attribute becomes an object of prefixes.
  - The `dataEndpoints` attribute is checked entry by entry.
- **Data handlers** (`AbstractHandler.ts`, `AutocompleteHandler.ts`): the base
  handler does the following:
  - builds the endpoint URL with an encoded `query` parameter;
  - reads results (`listLocation`, `elementLabel`, `elementUri`);
  - builds the HTTP request options, which a matching `dataEndpoints` entry of
    the settings can override.

  The template autocomplete handler substitutes `$domain`, `$property`,
  `$range`, `$lang` and `$key` in a SPARQL template before building its URL.
- **List widget** (`ListWidget.ts`): the values chosen in a list. One value
  becomes a single triple pattern; any other number becomes a `VALUES` block.
  The selection handlers accept a single selected option only.

JavaScript values are a datatype (`JsValues.Value`). An object is an ordered
sequence of named properties, kept in insertion order. `extend` works on
values, and the state the source changes in place is held in classes:

- the module-level `settings` variable is `Settings.SettingsStore`;
- a handler is `Handlers.Handler`;
- the list widget is `ListWidgets.ListWidget`.

The loops of `extend`, `#parsePrefixes`, `#parseDataEndpoints` and
`buildHttpRequest` are methods with loop invariants. Each is proved equal to a
specification function, and the lemmas state properties of those functions.

`encodeURIComponent` and `decodeURIComponent` are in `UriEncoding`.
`String.prototype.replace` with a global pattern is in `Text`, including how it
expands `$&`, `` $` ``, `$'` and `$$` in the replacement. Both are modelled
because the handlers' promises depend on them.

## Model

| member | source | states |
|---|---|---|
| JsValues.Member | src/sparnatural/components/widgets/AbstractHandler.ts:43-55 | Reading a property throws a `TypeError` exactly on `null` and `undefined`. On an object it yields the object's own property, or `undefined` when the object has no own property of that name; on any other value it yields `undefined`. |
| JsValues.Put | src/sparnatural/components/widgets/AbstractHandler.ts:91 | Assigning a property adds its name to the object's names and makes it read back as the new value. Every other name reads as before. |
| JsValues.PutKeepsUnique | src/SparnaturalAttributes.ts:82-86 | Assigning a property never makes an object name a property twice. |
| JsValues.PutNewAppends | src/sparnatural/settings/defaultSettings.ts:158-161 | A new property is added after the existing ones, which keeps insertion order. |
| Text.IndexOf | src/sparnatural/components/widgets/AbstractHandler.ts:27 | `indexOf` gives -1 exactly when the character is absent. Otherwise it gives the first position of that character. |
| Text.Expand | src/sparnatural/components/widgets/autocomplete/AutocompleteHandler.ts:51-56 | A replacement text without `$` is inserted unchanged. |
| Text.ReplaceAllLiteral | src/sparnatural/components/widgets/autocomplete/AutocompleteHandler.ts:51-56 | With a replacement without `$`, `replace` with a global pattern is a plain left-to-right literal replacement. |
| Text.LiteralReplaceRemoves | src/sparnatural/components/widgets/autocomplete/AutocompleteHandler.ts:51-56 | Suppose the replacement is non-empty, lacks the pattern's first character, and starts with a character the pattern lacks. Then no occurrence of the pattern is left. |
| Text.LiteralReplaceKeepsAbsent | src/sparnatural/components/widgets/autocomplete/AutocompleteHandler.ts:51-56 | A replacement pass creates no occurrence of another pattern, as long as the replacement's characters do not overlap it at the seams. |
| Text.Trim | src/SparnaturalAttributes.ts:75 | `trim` removes exactly the leading and trailing JavaScript white space. |
| UriEncoding.HexRoundTrip | src/sparnatural/components/widgets/AbstractHandler.ts:33 | An upper-case hex digit reads back as its value. |
| UriEncoding.Utf8RoundTrip | src/sparnatural/components/widgets/AbstractHandler.ts:33 | The UTF-8 bytes of every character decode back to that character. |
| UriEncoding.EscapedBytesRoundTrip | src/sparnatural/components/widgets/AbstractHandler.ts:33 | `%XX` escapes read back as the bytes they escape. |
| UriEncoding.DecodeEncode | src/sparnatural/components/widgets/AbstractHandler.ts:33 | `decodeURIComponent(encodeURIComponent(s)) == s` for every string. |
| UriEncoding.EncodeHasNoDelimiter | src/sparnatural/components/widgets/AbstractHandler.ts:33 | An encoded component holds none of `&`, `=`, `?`, `#`, space or `+`. |
| UriEncoding.EncodeUnreserved | src/sparnatural/components/widgets/AbstractHandler.ts:33 | Unreserved characters are left as they are. |
| UriEncoding.EncodeAppend | src/sparnatural/components/widgets/AbstractHandler.ts:33 | Encoding distributes over concatenation. |
| Extending.Extend | src/sparnatural/settings/defaultSettings.ts:149-171 | `extend(deep, target, ...src)` returns exactly `Extended`: `undefined` becomes `{}`, and the sources merge left to right. It fails with the first error a merge throws. |
| Extending.Merge | src/sparnatural/settings/defaultSettings.ts:152-164 | The inner `merge(obj)` loop returns exactly `Merged`. It skips `undefined` values, deep-extends plain-object values when deep, and assigns the others. Writing into a non-object throws. |
| Extending.MergedPerKey | src/sparnatural/settings/defaultSettings.ts:152-164 | `merge` on an object target succeeds exactly when every key succeeds. Each key then holds what `MergedEntry` gives for its previous value and its source value, and keys not given keep their value. |
| Extending.MergedAllSingle | src/sparnatural/settings/defaultSettings.ts:166-168 | Extending with one source is one `merge`. |
| Extending.MergedUndefinedOnly | src/sparnatural/settings/defaultSettings.ts:154 | A source whose every value is `undefined` leaves the target unchanged. |
| Extending.ExtendedPerKey | src/sparnatural/settings/defaultSettings.ts:149-171 | `extend` with one source on an object target works key by key, in both directions of the success condition. |
| Extending.ExtendedLaterSourceWins | src/sparnatural/settings/defaultSettings.ts:166-168 | A key that no source defines keeps the target's value. A key that the last source defines (not as a plain object) takes that source's value. |
| Extending.Copy | src/sparnatural/settings/defaultSettings.ts:150-164 | `extend(true, undefined, obj)` yields a value equal to `obj`, when no object in the tree repeats a name or holds `undefined`. |
| Extending.ExtendedOverCopy | src/sparnatural/settings/defaultSettings.ts:149-171 | Deep-extending `{}` with a fully defined base and then the options is the same as merging the options into the base. |
| Extending.MergedNestedKey | src/sparnatural/settings/defaultSettings.ts:157-158 | A deep merge of `{key: {...}}` replaces `key` by the deep extension of the target's object under it. |
| Extending.MergedAddsToNested | src/sparnatural/settings/defaultSettings.ts:157-158 | Deep-merging nested strings into a nested object overlays them: a name takes the new value when it is given, and keeps the old one otherwise. |
| Defaults.DefaultElementLabel | src/sparnatural/settings/defaultSettings.ts:56-58 | `element.label.value`: throws exactly when the element or its `label` is `null` or `undefined`. Otherwise it reads the nested value. |
| Defaults.DefaultElementUri | src/sparnatural/settings/defaultSettings.ts:65-67 | `element.uri.value`: throws exactly when the element or its `uri` is `null` or `undefined`, with no fallback. Otherwise it reads the nested value. |
| Defaults.DefaultListLocation | src/sparnatural/settings/defaultSettings.ts:93-95 | The default list location is the response itself. |
| Defaults.DefaultElementStart | src/sparnatural/settings/defaultSettings.ts:127-129 | `element.start.year`: throws exactly when the element or its `start` is `null` or `undefined`. Otherwise it reads the nested value. |
| Defaults.DefaultElementEnd | src/sparnatural/settings/defaultSettings.ts:130-132 | `element.stop.year`: throws exactly when the element or its `stop` is `null` or `undefined`. Otherwise it reads the nested value. |
| Defaults.DefaultsUniqueKeys | src/sparnatural/settings/defaultSettings.ts:5-134 | The defaults name no property twice. |
| Defaults.DefaultsFullyDefined | src/sparnatural/settings/defaultSettings.ts:5-134 | The defaults hold no `undefined` and no repeated name, at any depth. |
| Defaults.DefaultPrefixesAt | src/sparnatural/settings/defaultSettings.ts:15-19 | `sparqlPrefixes` defaults to the `rdf`, `rdfs` and `xsd` prefixes. |
| Defaults.DefaultNullAt | src/sparnatural/settings/defaultSettings.ts:6-14 | `langSearch`, `config` and `defaultEndpoint` default to `null`. |
| Settings.SettingsStore.constructor | src/sparnatural/settings/defaultSettings.ts:137 | `settings` starts `undefined`. |
| Settings.SettingsStore.GetSettings | src/sparnatural/settings/defaultSettings.ts:137-140 | `getSettings()` returns the module variable: `undefined` before any merge, else the value the last successful `mergeSettings` stored. |
| Settings.SettingsStore.MergeSettings | src/sparnatural/settings/defaultSettings.ts:143-145 | Stores `extend(true, {}, defaultSettings, options)` when it succeeds. When the merge throws, `settings` keeps its previous value. |
| Settings.MergedSettingsOverDefaults | src/sparnatural/settings/defaultSettings.ts:143-145 | The merge is the options merged into a copy of the defaults. |
| Settings.MergedSettingsPerKey | src/sparnatural/settings/defaultSettings.ts:143-145 | The settings succeed exactly when every option key merges with its default. Each key then holds the merge of its default and the option. |
| Settings.MergedSettingsWithoutOptions | src/sparnatural/settings/defaultSettings.ts:143-145 | With `{}` (or only `undefined` values) as options, the settings equal the defaults. |
| Settings.MergedSettingsAddsPrefixes | src/sparnatural/settings/defaultSettings.ts:15-19 | Prefixes given in the options are laid over the default prefixes instead of replacing them. |
| Settings.MergedSettingsRejectsObjectOverNull | src/sparnatural/settings/defaultSettings.ts:6-14 | A plain-object option whose first property is defined, given for a `null` default (`langSearch`, `config`, `defaultEndpoint`), makes `mergeSettings` throw; `{}` leaves the `null` in place. |
| Settings.MergedSettingsKeepsNullUnderEmptyObject | src/sparnatural/settings/defaultSettings.ts:6-14 | An option that gives a `null` default (`langSearch`, `config`, `defaultEndpoint`) as `{}`, or as an object whose properties are all `undefined`, does not make `mergeSettings` throw: every key keeps its default, the `null` included. |
| Attributes.Read | src/SparnaturalAttributes.ts:46-48 | `#read` gives `undefined` for a missing or empty attribute and its text when not read as JSON. As JSON it gives the parsed value, and an attribute that does not parse is a `SyntaxError`. |
| Attributes.IsJson | src/SparnaturalAttributes.ts:94-103 | `#isJSON` is true exactly when `JSON.parse` accepts the text, and a missing attribute is parsed as `null`. |
| Attributes.Config | src/SparnaturalAttributes.ts:27 | `src` is the parsed JSON when it parses, and the raw text otherwise. |
| Attributes.PrefixPair | src/SparnaturalAttributes.ts:78-81 | The prefix is the text before the first `:`, and the IRI the rest, so that prefix, `:` and IRI rebuild the token. A token without `:` has an empty IRI. |
| Attributes.ParsePrefixes | src/SparnaturalAttributes.ts:69-93 | `#parsePrefixes` returns exactly `Prefixes`: `undefined` without the attribute, else the tokens written in order. |
| Attributes.PrefixesUnique | src/SparnaturalAttributes.ts:76-91 | The prefix object never names a prefix twice. |
| Attributes.PrefixesLastWins | src/SparnaturalAttributes.ts:76-91 | Each prefix maps to the IRI of the last token that names it. |
| Attributes.TokensNoSpace | src/SparnaturalAttributes.ts:75 | No token of the split holds white space. |
| Attributes.Separators | src/SparnaturalAttributes.ts:75 | The split cuts out one text fewer than it yields tokens, and every text it cuts out is a match of `/:\s+|\s+/`: a non-empty run of white space, possibly after one `:`. |
| Attributes.SplitFromCovers | src/SparnaturalAttributes.ts:75 | The split loses nothing: its tokens, rejoined with the separators between them, give back the text from the last cut on. |
| Attributes.TokensCover | src/SparnaturalAttributes.ts:75 | The tokens of an attribute, rejoined with the matched separators, give back the trimmed attribute. |
| Attributes.TokensOfWord | src/SparnaturalAttributes.ts:75 | An attribute without white space is a single token. |
| Attributes.PrefixOfWord | src/SparnaturalAttributes.ts:69-93 | `prefix="name:iri"` defines exactly `name` as `iri`, later colons included. |
| Attributes.TokensOfRdfaForm | src/SparnaturalAttributes.ts:75 | `name: iri` is cut at the colon and the white space after it into `[name, iri]`. |
| Attributes.PrefixOfRdfaForm | src/SparnaturalAttributes.ts:69-93 | `prefix="ex: http://e.org/"` defines `ex` as the empty IRI and `http` as `//e.org/`, as the code computes it. |
| Attributes.EntryError | src/SparnaturalAttributes.ts:63-65 | An entry passes exactly when it is an object with an `endpoint` property. |
| Attributes.FirstBadEntry | src/SparnaturalAttributes.ts:63-65 | Finds the first rejected entry: -1 exactly when none is rejected, else the index of the first rejected one. |
| Attributes.DataEndpointsOf | src/SparnaturalAttributes.ts:50-67 | Gives `undefined` without the attribute. Otherwise it succeeds exactly when the text parses to an array whose entries all name an `endpoint`, and returns that array. |
| Attributes.ParseDataEndpoints | src/SparnaturalAttributes.ts:50-67 | The `forEach` check returns exactly `DataEndpointsOf`, and stops at the first rejected entry. |
| Attributes.Construct | src/SparnaturalAttributes.ts:25-44 | The constructor fails with the missing-config error exactly when `src` or `endpoint` is falsy. |
| Attributes.ConstructFields | src/SparnaturalAttributes.ts:32-43 | A constructed object holds each attribute as its text or its parsed JSON, as the constructor reads it. |
| Attributes.ConstructRejectsBadJson | src/SparnaturalAttributes.ts:35-42 | Once `src` and `endpoint` are set, a flag attribute that does not parse makes construction fail. |
| Handlers.Render | src/sparnatural/components/widgets/autocomplete/AutocompleteHandler.ts:55 | String concatenation renders `null` and `undefined` as `"null"` and `"undefined"`. |
| Handlers.Separator | src/sparnatural/components/widgets/AbstractHandler.ts:27 | The separator is `&` exactly when the endpoint holds a `?` after its first character, and `?` otherwise. |
| Handlers.FirstMatch | src/sparnatural/components/widgets/AbstractHandler.ts:77-80 | `find` gives the first `dataEndpoints` entry whose `endpoint` is the handler's endpoint, or none. |
| Handlers.DataEndpoints | src/sparnatural/components/widgets/AbstractHandler.ts:77 | `getSettings().dataEndpoints.find` throws unless the settings are an object whose `dataEndpoints` is an array. |
| Handlers.Handler.constructor | src/sparnatural/components/widgets/AbstractHandler.ts:10-21 | Stores the arguments. `searchPath` defaults to `rdfs:label` when `null` or `undefined`, and `listOrder` is `alphabetical`. |
| Handlers.Handler.ForAutocomplete | src/sparnatural/components/widgets/autocomplete/AutocompleteHandler.ts:4-11 | The autocomplete base passes the language as the search path. |
| Handlers.Handler.BuildUrl | src/sparnatural/components/widgets/AbstractHandler.ts:25-36 | The URL is the endpoint, the separator, `query=`, then a value that decodes to the post-processed query and holds none of `&`, `=`, `?`, `#`, space and `+`, then `&format=json`. |
| Handlers.Handler.ListLocation | src/sparnatural/components/widgets/AbstractHandler.ts:37-44 | `data.results.bindings`: throws exactly when the data or its `results` is `null` or `undefined`. |
| Handlers.Handler.ElementLabel | src/sparnatural/components/widgets/AbstractHandler.ts:46-48 | `element.label.value`: throws exactly when the element or its `label` is `null` or `undefined`. |
| Handlers.Handler.ElementUri | src/sparnatural/components/widgets/AbstractHandler.ts:51-57 | Gives `element.uri.value` when `uri` is truthy, else `element.value.value` when `value` is truthy, else `undefined`; a truthy `uri` or `value` that is not an object, and an element that is not an object, give `undefined`. It throws exactly on a `null` or `undefined` element. |
| Handlers.Handler.EnableMatch | src/sparnatural/components/widgets/AbstractHandler.ts:59-61 | A base handler never asks for matching. |
| Handlers.Handler.BuildHttpRequest | src/sparnatural/components/widgets/AbstractHandler.ts:63-98 | Succeeds exactly when `dataEndpoints` can be searched, and returns `RequestFor`: the default options with the first matching entry applied. When it fails, the endpoint is unchanged. |
| Handlers.ApplyConfigOptions | src/sparnatural/components/widgets/AbstractHandler.ts:84-94 | Every option other than `endpoint` comes from the matching entry when the entry names it, and keeps its default otherwise. |
| Handlers.ApplyConfigEndpoint | src/sparnatural/components/widgets/AbstractHandler.ts:84-94 | After the loop the handler's endpoint is the entry's string `endpoint`, or unchanged. |
| Handlers.RequestWithoutConfig | src/sparnatural/components/widgets/AbstractHandler.ts:65-82 | Without a matching entry, the request is GET with the SPARQL JSON `Accept` header, `cors` and the default cache, and the endpoint stays as it is. |
| Handlers.RequestWithConfig | src/sparnatural/components/widgets/AbstractHandler.ts:77-95 | With a matching entry, the options come from that entry over the defaults, and the endpoint is still the handler's own. |
| Handlers.ElementUriFallsBack | src/sparnatural/components/widgets/AbstractHandler.ts:51-57 | An element with only `value.value` gives that value from the handler, while the default `elementUri` of the settings throws on it. |
| Handlers.ElementUriAgreesWithDefault | src/sparnatural/components/widgets/AbstractHandler.ts:51-53 | Where `uri` is an object, the handler and the default `elementUri` agree. |
| Autocomplete.TemplateAutocompleteHandler.constructor | src/sparnatural/components/widgets/autocomplete/AutocompleteHandler.ts:27-35 | Makes a base handler whose search path is the language (`rdfs:label` when it is `null`), and keeps the template. |
| Autocomplete.TemplateAutocompleteHandler.AutocompleteUrl | src/sparnatural/components/widgets/autocomplete/AutocompleteHandler.ts:39-58 | The URL is the endpoint, the separator, `query=`, a value that decodes to the post-processed template with the five substitutions made and holds none of `&`, `=`, `?`, `#`, space and `+`, then `&format=json`. |
| Autocomplete.SubstitutedRemovesPlaceholders | src/sparnatural/components/widgets/autocomplete/AutocompleteHandler.ts:51-56 | Suppose no value holds a `$` and the key starts with a character no placeholder holds. Then no placeholder is left in the substituted query. |
| Autocomplete.KeyCompletesPlaceholder | src/sparnatural/components/widgets/autocomplete/AutocompleteHandler.ts:56 | Without that condition a placeholder can remain: the key `main` completes `$do$key` into `$domain`. |
| Autocomplete.EmptyKeyJoinsPlaceholder | src/sparnatural/components/widgets/autocomplete/AutocompleteHandler.ts:56 | An empty key joins `$k$keyey` into `$key`. |
| Autocomplete.LangMatchesLongerName | src/sparnatural/components/widgets/autocomplete/AutocompleteHandler.ts:55 | `$lang` also replaces the start of `$language`. |
| Autocomplete.KeyIsExpanded | src/sparnatural/components/widgets/autocomplete/AutocompleteHandler.ts:56 | The typed key is expanded as a replacement template: the key `$&` puts `$key` back. |
| Autocomplete.KeyInsertsRest | src/sparnatural/components/widgets/autocomplete/AutocompleteHandler.ts:56 | The key `$'` inserts the rest of the query in its place. |
| Autocomplete.KeyInsertedVerbatim | src/sparnatural/components/widgets/autocomplete/AutocompleteHandler.ts:56 | With literal insertion, a template ending in `$key` ends with exactly the key, whatever the key holds. |
| Autocomplete.KeyInsertedRemovesPlaceholder | src/sparnatural/components/widgets/autocomplete/AutocompleteHandler.ts:56 | Literal insertion of a suitable key leaves no `$key`. |
| ListWidgets.ListWidget.constructor | src/sparnatural/components/widgets/listwidget/ListWidget.ts:29-51 | A new widget holds the selected start class, property and end class, and no value. |
| ListWidgets.ListWidget.BuildValue | src/sparnatural/components/widgets/listwidget/ListWidget.ts:157-166 | A built value may be repeated, and its key and URI are the URI. |
| ListWidgets.ListWidget.ParseInput | src/sparnatural/components/widgets/listwidget/ListWidget.ts:168 | The input is taken as it is. |
| ListWidgets.ListWidget.IsBlockingObjectProp | src/sparnatural/components/widgets/listwidget/ListWidget.ts:174-176 | True exactly when one value is selected. |
| ListWidgets.ListWidget.IsBlockingEnd | src/sparnatural/components/widgets/listwidget/ListWidget.ts:182-184 | True exactly when some value is selected. |
| ListWidgets.ListWidget.GetRdfJsPattern | src/sparnatural/components/widgets/listwidget/ListWidget.ts:187-214 | Always one pattern. With one value it is a BGP holding the single triple from the start variable through the property to the value. Otherwise it is a `VALUES` block with one row per value, in order, binding the end variable to that value's URI. |
| ListWidgets.SelectedValue | src/sparnatural/components/widgets/listwidget/ListWidget.ts:111-146 | More than one selected option throws the single-selection error, and none throws on `option[0]`. One option gives a value keyed by its `value`, labelled by its label, with no repetition. |
| ListWidgets.PatternFollowsBlocking | src/sparnatural/components/widgets/listwidget/ListWidget.ts:174-214 | A BGP is produced exactly when the widget blocks the object property, and blocking the property implies blocking the end class. |
| ListWidgets.NoValueGivesEmptyValues | src/sparnatural/components/widgets/listwidget/ListWidget.ts:202-213 | With nothing selected the pattern is an empty `VALUES` block, and the end class is not blocked. |
| ListWidgets.ValuesRowsRoundTrip | src/sparnatural/components/widgets/listwidget/ListWidget.ts:202-213 | Each `VALUES` row binds the end variable to the named node of the matching value's URI. |
| ListWidgets.SelectionMatchesBuildValue | src/sparnatural/components/widgets/listwidget/ListWidget.ts:118-124 | A single selection builds what `buildValue` builds from the option, but without a repetition. |

## Left out

- The DOM, jQuery, `niceSelect`/`select2`, tooltips and `Intl.Collator` are not modelled.
  The list widget's rendering (`render`, `renderWidgetVal`) and the fetching of list items are also out.
  `getAttribute` is a map from attribute name to text.
  `JSON.parse` is a parameter that returns a value, or nothing where it throws.
- The `semanticPostProcess` callback, `getVariableValue` and `SparqlFactory`/`DataFactory` are parameters or plain constructors.
  Their own code is not part of this model.
- `console.error` logging is left out: the `catch` in `#parseDataEndpoints`, the non-string endpoint warning in `buildHttpRequest`, and the default callbacks that only log and return `null`.
  Those callbacks (`getData`, `autocompleteUrl`, `listUrl`, `datesUrl`) are function values known by their name.
- `localCacheDataTtl` is modelled as a plain number. The local data cache is not part of this model.
- `Extending.Extend`: modelled on values, not on shared references.
  When two places in JavaScript hold the same object, a write through one is visible through the other; the model does not capture this.
  Integer-like property names are not moved ahead of other names as JavaScript orders them.
  `__proto__` is treated as an ordinary name.
  Names inherited from `Object.prototype` (`constructor`, `toString`, `valueOf`, …) read as absent from the target, so `target[key]` sees only own properties.
  In JavaScript, `mergeSettings({constructor: {x: 1}})` deep-extends the inherited `Object` function; the model builds a fresh `{x: 1}` instead.
- `Extending.Extend`: writing a named property onto an array or a function target is an error in the model. JavaScript accepts it, but the value model holds no named properties on those.
  Numbers are integers: `NaN` and fractions are not represented.
- `Handlers.Handler.BuildHttpRequest`: the `Headers` instance is modelled as a plain object with the one `Accept` entry.
  An `endpoint` entry whose value is not a string is stored in the handler by JavaScript. The model's endpoint is a string, so it keeps the previous endpoint there.
- `Handlers.ApplyConfigOptions`, `Handlers.ApplyConfigEndpoint` and `Handlers.RequestWithConfig` assume the matching entry names each property once. This is how JavaScript objects behave; the value model does not force it.
- `Autocomplete.SubstitutedRemovesPlaceholders`: the claim that no placeholder remains is proved for values without `$` and for keys without `$` whose first character occurs in no placeholder.
  That condition is sufficient, not necessary. The lemmas after it prove counterexamples for some keys outside it (an empty key, a key that completes a `$do`).
  The case where a domain value itself contains `$property` and is substituted again in the next pass is not proved.
- Strings are sequences of Unicode scalar values, not of UTF-16 code units, so lone surrogates cannot occur and `encodeURIComponent` never throws in the model.
  Assigning a property on a primitive is a `TypeError`, as in strict-mode JavaScript; sloppy-mode silent failure is not modelled.
  `mergeSettings(undefined)` throws in `Object.entries` in JavaScript; the model's options are always an object, so that case is not expressed.
- `ListWidgets.ListWidget.constructor`: the widget starts with no value. The initialisation of `widgetValues` in the widget base class is not part of this model.
  The list handler, the `sort` flag and the value repetition handed to the base class only serve rendering, so they are not kept.

## Findings

| source | as written | input that shows it | evidently intended | confidence | as-written member | corrected member |
|---|---|---|---|---|---|---|
| src/sparnatural/components/widgets/autocomplete/AutocompleteHandler.ts:56 | the typed key is passed as the replacement string of `replace`, so `$&`, `` $` ``, `$'` and `$$` in it are expanded | key `$&` on template `$key` gives `$key`; key `$'` on `a $key b` gives `a  b b` | the typed text is inserted literally | not executed | Autocomplete.KeyIsExpanded | Autocomplete.KeyInsertedVerbatim |
