/**
 * The autocomplete handler driven by a SPARQL template
 * (`SparqlTemplateAutocompleteHandler` in `AutocompleteHandler.ts`): the
 * placeholders `$domain`, `$property`, `$range`, `$lang` and `$key` of the
 * template are replaced, in that order, by the selected classes and property,
 * the handler's language and the text the user typed, and the query goes to
 * the endpoint through the base handler's URL builder.
 */
module Autocomplete {
  import opened Wrappers
  import opened Text
  import opened UriEncoding
  import opened Handlers

  /** The five placeholder replacements `autocompleteUrl` makes, in its order, each with
      `String.prototype.replace` and a global regular expression: the replacement texts are
      replacement templates, in which `$&`, `` $` ``, `$'` and `$$` are expanded. */
  function Substituted(query: string, domain: string, property: string, range: string,
                       language: Nullable, key: string): string
  {
    var s1 := ReplaceAll(query, "$domain", "<" + domain + ">");
    var s2 := ReplaceAll(s1, "$property", "<" + property + ">");
    var s3 := ReplaceAll(s2, "$range", "<" + range + ">");
    var s4 := ReplaceAll(s3, "$lang", "'" + Render(language) + "'");
    ReplaceAll(s4, "$key", key)
  }

  predicate NoPlaceholder(s: string)
  {
    !Occurs(s, "$domain") && !Occurs(s, "$property") && !Occurs(s, "$range")
    && !Occurs(s, "$lang") && !Occurs(s, "$key")
  }

  /** A key that cannot complete the start of a placeholder left before it: it is not empty
      and its first character occurs in no placeholder. */
  predicate KeyStartsOutsidePlaceholders(key: string)
  {
    key != [] && key[0] !in "$domain" && key[0] !in "$property" && key[0] !in "$range"
    && key[0] !in "$lang" && key[0] !in "$key"
  }

  class TemplateAutocompleteHandler {
    const handler: Handler
    var queryString: string

    /** `new SparqlTemplateAutocompleteHandler(sparqlEndpointUrl, semanticPostProcess, language,
        queryString)`: the base handler's search path is the language (`rdfs:label` when the
        language is `null` or `undefined`). */
    constructor(sparqlEndpointUrl: string, semanticPostProcess: string -> string, language: Nullable,
                queryString: string)
      ensures fresh(handler)
      ensures handler.sparqlEndpointUrl == sparqlEndpointUrl
      ensures handler.semanticPostProcess == semanticPostProcess
      ensures handler.language == language
      ensures language.Given? ==> handler.searchPath == language.s
      ensures !language.Given? ==> handler.searchPath == DefaultSearchPath
      ensures handler.listOrder == "alphabetical"
      ensures this.queryString == queryString
    {
      handler := new Handler.ForAutocomplete(sparqlEndpointUrl, semanticPostProcess, language, NullArg);
      this.queryString := queryString;
    }

    /** `autocompleteUrl(domain, property, range, key)`: the URL of the endpoint whose `query`
        parameter decodes to the post-processed substituted template. */
    function AutocompleteUrl(domain: string, property: string, range: string, key: string): (url: string)
      reads this, handler
      ensures |handler.sparqlEndpointUrl| + 7 + 12 <= |url|
      ensures var e := handler.sparqlEndpointUrl;
              var m := url[|e| + 7..|url| - 12];
              && url[..|e|] == e
              && url[|e|] == Separator(e)
              && url[|e| + 1..|e| + 7] == "query="
              && url[|url| - 12..] == "&format=json"
              && Decode(m) ==
                   Some(handler.semanticPostProcess(Substituted(queryString, domain, property, range, handler.language, key)))
              && '&' !in m && '#' !in m && '=' !in m && '?' !in m && ' ' !in m && '+' !in m
    {
      handler.BuildUrl(Substituted(queryString, domain, property, range, handler.language, key))
    }
  }

  /** One pass with a replacement without `$` removes its placeholder, when the replacement is
      non-empty, lacks `$` and starts with a character the placeholder lacks. */
  lemma PassRemoves(s: string, pat: string, r: string)
    requires pat != [] && pat[0] == '$' && r != [] && '$' !in r && r[0] !in pat
    ensures !Occurs(ReplaceAll(s, pat, r), pat)
  {
    ReplaceAllLiteral(s, pat, r);
    LiteralReplaceRemoves(s, pat, r);
  }

  /** One such pass creates no other placeholder `q` whose characters exclude the
      replacement's first one. */
  lemma PassKeepsAbsent(s: string, pat: string, r: string, q: string)
    requires pat != [] && q != [] && q[0] == '$' && r != [] && '$' !in r && r[0] !in q
    requires !Occurs(s, q)
    ensures !Occurs(ReplaceAll(s, pat, r), q)
  {
    ReplaceAllLiteral(s, pat, r);
    LiteralReplaceKeepsAbsent(s, pat, r, q);
  }

  /** When no value holds a `$` and the key starts outside every placeholder, the substituted
      query holds no placeholder any more: each pass removes its own placeholder and creates
      none of the others. */
  lemma SubstitutedRemovesPlaceholders(query: string, domain: string, property: string, range: string,
                                       language: Nullable, key: string)
    requires '$' !in domain && '$' !in property && '$' !in range && '$' !in Render(language)
    requires '$' !in key && KeyStartsOutsidePlaceholders(key)
    ensures NoPlaceholder(Substituted(query, domain, property, range, language, key))
  {
    var r1, r2, r3, r4 := "<" + domain + ">", "<" + property + ">", "<" + range + ">", "'" + Render(language) + "'";
    var s1 := ReplaceAll(query, "$domain", r1);
    PassRemoves(query, "$domain", r1);

    var s2 := ReplaceAll(s1, "$property", r2);
    PassRemoves(s1, "$property", r2);
    PassKeepsAbsent(s1, "$property", r2, "$domain");

    var s3 := ReplaceAll(s2, "$range", r3);
    PassRemoves(s2, "$range", r3);
    PassKeepsAbsent(s2, "$range", r3, "$domain");
    PassKeepsAbsent(s2, "$range", r3, "$property");

    var s4 := ReplaceAll(s3, "$lang", r4);
    PassRemoves(s3, "$lang", r4);
    PassKeepsAbsent(s3, "$lang", r4, "$domain");
    PassKeepsAbsent(s3, "$lang", r4, "$property");
    PassKeepsAbsent(s3, "$lang", r4, "$range");

    PassRemoves(s4, "$key", key);
    PassKeepsAbsent(s4, "$key", key, "$domain");
    PassKeepsAbsent(s4, "$key", key, "$property");
    PassKeepsAbsent(s4, "$key", key, "$range");
    PassKeepsAbsent(s4, "$key", key, "$lang");
  }

  /** Without the condition on the key's first character a placeholder can remain: the key
      completes a `$do` left before `$key` into `$domain`. */
  lemma KeyCompletesPlaceholder()
    ensures ReplaceAll("$do$key", "$key", "main") == "$domain"
  {
    var s, p, key := "$do$key", "$key", "main";
    assert s[0..4][1] == 'd' && s[1..5][0] == 'd' && s[2..6][0] == 'o';
    assert s[3..7] == p;
    assert ReplaceFrom(s, p, key, 7) == [];
    assert ReplaceFrom(s, p, key, 3) == key;
    assert ReplaceFrom(s, p, key, 2) == "o" + key;
    assert ReplaceFrom(s, p, key, 1) == "do" + key;
  }

  /** An empty key joins the text around `$key` into a new `$key`. */
  lemma EmptyKeyJoinsPlaceholder()
    ensures ReplaceAll("$k$keyey", "$key", "") == "$key"
  {
    var s, p, key := "$k$keyey", "$key", "";
    assert s[0..4][2] == '$' && s[1..5][0] == 'k';
    assert s[2..6] == p;
    assert ReplaceFrom(s, p, key, 6) == "ey";
    assert ReplaceFrom(s, p, key, 2) == "ey";
    assert ReplaceFrom(s, p, key, 1) == "key";
  }

  /** `$lang` also matches the start of a longer name such as `$language`. */
  lemma LangMatchesLongerName()
    ensures ReplaceAll("$language", "$lang", "'en'") == "'en'uage"
  {
  }

  // ---------------------------------------------------------------------------
  // The key as replacement template.

  /** As written, the typed key is a replacement template: a key `$&` puts the matched `$key`
      back. */
  lemma KeyIsExpanded()
    ensures ReplaceAll("$key", "$key", "$&") == "$key"
  {
  }

  /** And a key `$'` inserts the rest of the query in its place. */
  lemma KeyInsertsRest()
    ensures ReplaceAll("a $key b", "$key", "$'") == "a  b b"
  {
    var s, p, key := "a $key b", "$key", "$'";
    assert s[0..4][0] == 'a' && s[1..5][0] == ' ';
    assert s[2..6] == p;
    assert s[6..] == " b";
    assert Expand(key, p, s[..2], s[6..]) == " b" by {
      assert key[2..] == [];
    }
    assert s[6..8] == " b";
    assert ReplaceFrom(s, p, key, 6) == " b";
    assert ReplaceFrom(s, p, key, 2) == " b b";
    assert ReplaceFrom(s, p, key, 1) == "  b b";
  }

  /** The key pass as evidently intended: the typed text is inserted literally. */
  function KeyInserted(s: string, key: string): string
  {
    LiteralReplace(s, "$key", key)
  }

  /** Inserting literally, a template that ends with `$key` after text without `$` ends with
      exactly the key, whatever the key holds. */
  lemma {:induction false} KeyInsertedVerbatim(a: string, key: string)
    requires '$' !in a
    ensures KeyInserted(a + "$key", key) == a + key
    decreases |a|
  {
    var s := a + "$key";
    if a == [] {
      assert s == "$key";
      assert s[4..] == [];
    } else {
      assert s[0] == a[0];
      assert s[..4] != "$key" by { assert s[..4][0] == a[0]; }
      assert s[1..] == a[1..] + "$key";
      KeyInsertedVerbatim(a[1..], key);
      assert a == [a[0]] + a[1..];
    }
  }

  /** Literal insertion removes every `$key` and creates none, for any non-empty key without `$`
      whose first character `$key` lacks. */
  lemma KeyInsertedRemovesPlaceholder(s: string, key: string)
    requires key != [] && key[0] !in "$key" && '$' !in key
    ensures !Occurs(KeyInserted(s, key), "$key")
  {
    LiteralReplaceRemoves(s, "$key", key);
  }
}
