/**
 * The theme synchroniser: reading the theme back from the page URL
 * (`get_theme_from_query`, `apply_theme`) and writing it into the URL
 * before the reload (`reload_with_theme`).
 */
module Theme {
  import opened Wrappers
  import opened PyStr
  import opened Url

  /** Whether the first value recorded for `key` is `v`. */
  predicate FirstValueIs(params: Params, key: string, v: string)
  {
    match Get(params, key)
    case Some(vs) => |vs| > 0 && vs[0] == v
    case None => false
  }

  /**
   * `get_theme_from_query(params)`: the first `theme` value when it is
   * `light` or `dark`, and `light` otherwise (no `theme` key, or any other
   * value).
   */
  function GetThemeFromQuery(params: Params): (r: string)
    requires WellFormed(params)
    ensures r == "light" || r == "dark"
    ensures r == "dark" <==> FirstValueIs(params, "theme", "dark")
  {
    match Get(params, "theme")
    case None => "light"
    case Some(vs) =>
      GetWellFormed(params, "theme");
      var theme := vs[0];
      if theme == "light" || theme == "dark" then theme else "light"
  }

  /** `apply_theme(search)`: strip the leading `?`s, parse the query, pick the theme. */
  function ApplyTheme(search: string): (r: string)
    ensures r == "light" || r == "dark"
  {
    GetThemeFromQuery(ParseQs(LStrip(search, '?')))
  }

  /** The chart template `reload_with_theme` installs for a theme: the dark one exactly for `dark`. */
  function TemplateFor(theme: string): (r: string)
    ensures r == "plotly_dark" <==> theme == "dark"
    ensures r == "plotly" <==> theme != "dark"
  {
    if theme == "dark" then "plotly_dark" else "plotly"
  }

  // --------------------------------------------------- parts of an href

  /** The href before its fragment. */
  function BeforeFragment(href: string): string
  {
    Partition(href, '#').0
  }

  /** The href up to its query: before the first `?` that precedes the fragment. */
  function BaseOf(href: string): (r: string)
    ensures '?' !in r && '#' !in r
  {
    Partition(BeforeFragment(href), '?').0
  }

  /** The query string a browser sees: after that `?`, before the fragment. */
  function QueryOf(href: string): (r: string)
    ensures '#' !in r
  {
    Partition(BeforeFragment(href), '?').2
  }

  /** The `#fragment` suffix, including its `#`, or nothing. */
  function FragmentOf(href: string): string
  {
    var (_, found, fragment) := Partition(href, '#');
    if found then ['#'] + fragment else []
  }

  /** The browser's `location.search` for `href`: `?` and the query, or empty when the query is. */
  function Search(href: string): string
  {
    var query := QueryOf(href);
    if query == [] then [] else ['?'] + query
  }

  // ------------------------------------------------------ the new href

  /** The query `reload_with_theme` writes: the parsed query with `theme` overwritten. */
  function ThemedQuery(theme: string, query: string): (r: Params)
    ensures Get(r, "theme") == Some([theme])
    ensures forall k :: k != "theme" ==> Get(r, k) == Get(ParseQs(query), k)
    ensures Keys(r) == if Get(ParseQs(query), "theme").Some? then Keys(ParseQs(query)) else Keys(ParseQs(query)) + ["theme"]
  {
    Set(ParseQs(query), "theme", [theme])
  }

  /**
   * `reload_with_theme` as written: the href is split at its first `?`,
   * whatever precedes it, so a fragment before that `?` stays in the base
   * and a fragment after it is parsed as part of the query.
   */
  function NewHrefAsWritten(theme: string, href: string): (r: string)
    ensures var (base, _, query) := Partition(href, '?');
      Partition(r, '?') == (base, true, UrlEncode(ThemedQuery(theme, query)))
  {
    var (base, _, query) := Partition(href, '?');
    PartitionAt(base, '?', UrlEncode(ThemedQuery(theme, query)));
    base + ['?'] + UrlEncode(ThemedQuery(theme, query))
  }

  /**
   * `reload_with_theme` with the fragment set aside first: the base and the
   * fragment are kept and the query is replaced by the themed one.
   */
  function NewHref(theme: string, href: string): (r: string)
    ensures BaseOf(r) == BaseOf(href) && FragmentOf(r) == FragmentOf(href)
    ensures QueryOf(r) == UrlEncode(ThemedQuery(theme, QueryOf(href)))
  {
    AssembledHref(BaseOf(href), UrlEncode(ThemedQuery(theme, QueryOf(href))), FragmentOf(href));
    BaseOf(href) + ['?'] + UrlEncode(ThemedQuery(theme, QueryOf(href))) + FragmentOf(href)
  }

  /** On an href without a fragment the code as written and the corrected href agree. */
  lemma AsWrittenWithoutFragment(theme: string, href: string)
    requires '#' !in href
    ensures NewHrefAsWritten(theme, href) == NewHref(theme, href)
  {
    assert Partition(href, '#') == (href, false, []);
  }

  /** Re-encoding a themed query yields a non-empty string that parses back to it. */
  lemma ThemedQueryRoundTrip(theme: string, query: string)
    requires theme != []
    ensures var d := ThemedQuery(theme, query);
      WellFormed(d) && ParseQs(UrlEncode(d)) == d && UrlEncode(d) != []
  {
    var d := ThemedQuery(theme, query);
    SetWellFormed(ParseQs(query), "theme", [theme]);
    ParseQsUrlEncode(d);
    ParseQsEmpty();
    assert Get(d, "theme").Some?;
  }

  /** An href assembled from a base, a query and a fragment splits back into them. */
  lemma AssembledHref(base: string, query: string, fragment: string)
    requires '?' !in base && '#' !in base && '#' !in query
    requires fragment == [] || fragment[0] == '#'
    ensures var href := base + ['?'] + query + fragment;
      BaseOf(href) == base && QueryOf(href) == query && FragmentOf(href) == fragment
  {
    var href := base + ['?'] + query + fragment;
    if fragment == [] {
      assert href == base + ['?'] + query;
    } else {
      assert href == (base + ['?'] + query) + ['#'] + fragment[1..];
      PartitionAt(base + ['?'] + query, '#', fragment[1..]);
    }
    PartitionAt(base, '?', query);
  }

  /**
   * What the new href says: the same base and fragment, and a query whose
   * `theme` is the new theme while every other key keeps its values and
   * its place.
   */
  lemma NewHrefParts(theme: string, href: string)
    requires theme != []
    ensures var h := NewHref(theme, href);
      var before := ParseQs(QueryOf(href));
      var after := ParseQs(QueryOf(h));
      BaseOf(h) == BaseOf(href) &&
      FragmentOf(h) == FragmentOf(href) &&
      Get(after, "theme") == Some([theme]) &&
      (forall k :: k != "theme" ==> Get(after, k) == Get(before, k)) &&
      Keys(after) == if Get(before, "theme").Some? then Keys(before) else Keys(before) + ["theme"]
  {
    ThemedQueryRoundTrip(theme, QueryOf(href));
  }

  /**
   * What the code as written promises of the new href: the text before the
   * first `?` is kept, `theme` is the new theme, and every other key parsed
   * from the text after the first `?` keeps its values and its place.
   */
  lemma NewHrefPartsAsWritten(theme: string, href: string)
    requires theme != []
    ensures var h := NewHrefAsWritten(theme, href);
      var before := ParseQs(Partition(href, '?').2);
      var after := ParseQs(Partition(h, '?').2);
      Partition(h, '?').0 == Partition(href, '?').0 &&
      Get(after, "theme") == Some([theme]) &&
      (forall k :: k != "theme" ==> Get(after, k) == Get(before, k)) &&
      Keys(after) == if Get(before, "theme").Some? then Keys(before) else Keys(before) + ["theme"]
  {
    ThemedQueryRoundTrip(theme, Partition(href, '?').2);
  }

  /** `apply_theme` on `?` and an encoded dict reads that dict's theme. */
  lemma ApplyThemeEncoded(d: Params)
    requires WellFormed(d)
    ensures ApplyTheme(['?'] + UrlEncode(d)) == GetThemeFromQuery(d)
  {
    var query := UrlEncode(d);
    assert LStrip(['?'] + query, '?') == query;
    ParseQsUrlEncode(d);
  }

  /** A browser reading back `base?query#fragment` written with a themed query finds the theme. */
  lemma ReadBackTheme(theme: string, base: string, raw: string, fragment: string)
    requires theme == "light" || theme == "dark"
    requires '?' !in base && '#' !in base
    requires fragment == [] || fragment[0] == '#'
    ensures ApplyTheme(Search(base + ['?'] + UrlEncode(ThemedQuery(theme, raw)) + fragment)) == theme
  {
    var d := ThemedQuery(theme, raw);
    ThemedQueryRoundTrip(theme, raw);
    AssembledHref(base, UrlEncode(d), fragment);
    ApplyThemeEncoded(d);
  }

  /** After the reload, `apply_theme` recovers the theme that was written. */
  lemma ThemeRoundTrip(theme: string, href: string)
    requires theme == "light" || theme == "dark"
    ensures ApplyTheme(Search(NewHref(theme, href))) == theme
  {
    ReadBackTheme(theme, BaseOf(href), QueryOf(href), FragmentOf(href));
  }

  /** As written, the theme survives the reload whenever the href has no fragment before its `?`. */
  lemma ThemeRoundTripAsWritten(theme: string, href: string)
    requires theme == "light" || theme == "dark"
    requires '#' !in Partition(href, '?').0
    ensures ApplyTheme(Search(NewHrefAsWritten(theme, href))) == theme
  {
    var (base, _, raw) := Partition(href, '?');
    ReadBackTheme(theme, base, raw, []);
    assert NewHrefAsWritten(theme, href) == base + ['?'] + UrlEncode(ThemedQuery(theme, raw)) + [];
  }

  /**
   * As written, everything after the first `?` is the query the new href
   * is built from, and the new href has no fragment.
   */
  lemma AsWrittenQuery(theme: string, base: string, query: string)
    requires theme != [] && '?' !in base && '#' !in base
    ensures var h := NewHrefAsWritten(theme, base + ['?'] + query);
      FragmentOf(h) == [] &&
      forall k :: k != "theme" ==> Get(ParseQs(QueryOf(h)), k) == Get(ParseQs(query), k)
  {
    PartitionAt(base, '?', query);
    var d := ThemedQuery(theme, query);
    var h := NewHrefAsWritten(theme, base + ['?'] + query);
    assert h == base + ['?'] + UrlEncode(d) + [];
    AssembledHref(base, UrlEncode(d), []);
    assert QueryOf(h) == UrlEncode(d);
    ThemedQueryRoundTrip(theme, query);
    forall k | k != "theme"
      ensures Get(ParseQs(QueryOf(h)), k) == Get(ParseQs(query), k)
    {
      assert Get(d, k) == Get(ParseQs(query), k);
    }
  }

  /** The two ways `FragmentJoinsValue` reads the href `base?key=value#fragment`. */
  lemma OneFieldHref(base: string, key: string, value: string, fragment: string)
    ensures var href := base + ['?'] + key + ['='] + value + ['#'] + fragment;
      href == base + ['?'] + (key + ['='] + value) + (['#'] + fragment) &&
      href == base + ['?'] + (key + ['='] + (value + ['#'] + fragment))
  {
  }

  /**
   * As written, a fragment after a one-field query is pulled into the
   * field's value: the page at `p?a=1#f` reads `a` as `1`, the page reloaded
   * from it reads `a` as `1#f`, and the fragment is gone.
   */
  lemma FragmentJoinsValue(theme: string, base: string, key: string, value: string, fragment: string)
    requires theme != [] && key != "theme" && value != []
    requires '?' !in base && '#' !in base
    requires '&' !in key && '=' !in key && '+' !in key && '%' !in key && '#' !in key
    requires '&' !in value && '+' !in value && '%' !in value && '#' !in value
    requires '&' !in fragment && '+' !in fragment && '%' !in fragment
    ensures var href := base + ['?'] + key + ['='] + value + ['#'] + fragment;
      var h := NewHrefAsWritten(theme, href);
      Get(ParseQs(QueryOf(href)), key) == Some([value]) &&
      Get(ParseQs(QueryOf(h)), key) == Some([value + ['#'] + fragment]) && FragmentOf(h) == []
  {
    OneFieldHref(base, key, value, fragment);
    AssembledHref(base, key + ['='] + value, ['#'] + fragment);
    ParseQsSingle(key, value);
    AsWrittenQuery(theme, base, key + ['='] + (value + ['#'] + fragment));
    ParseQsSingle(key, value + ['#'] + fragment);
  }

  /**
   * A parameter with a blank value (`key=`) or with no `=` (`key`) does not
   * survive the reload: `parse_qs` drops it, so neither the href as written
   * nor the corrected one carries it on.
   */
  lemma BlankParameterDropped(theme: string, base: string, key: string)
    requires theme != [] && key != "theme"
    requires '?' !in base && '#' !in base
    requires '&' !in key && '=' !in key && '#' !in key
    ensures var href := base + ['?'] + (key + ['=']);
      Get(ParseQs(QueryOf(NewHrefAsWritten(theme, href))), key) == None &&
      Get(ParseQs(QueryOf(NewHref(theme, href))), key) == None
    ensures var href := base + ['?'] + key;
      Get(ParseQs(QueryOf(NewHrefAsWritten(theme, href))), key) == None &&
      Get(ParseQs(QueryOf(NewHref(theme, href))), key) == None
  {
    ParseQsBlank(key);
    BlankQueryDropped(theme, base, key + ['='], key);
    BlankQueryDropped(theme, base, key, key);
  }

  /** The reload of `base?query`, where `query` parses to nothing, carries no key but `theme`. */
  lemma BlankQueryDropped(theme: string, base: string, query: string, key: string)
    requires theme != [] && key != "theme"
    requires '?' !in base && '#' !in base && '#' !in query
    requires ParseQs(query) == []
    ensures var href := base + ['?'] + query;
      Get(ParseQs(QueryOf(NewHrefAsWritten(theme, href))), key) == None &&
      Get(ParseQs(QueryOf(NewHref(theme, href))), key) == None
  {
    var href := base + ['?'] + query;
    assert href == base + ['?'] + query + [];
    AssembledHref(base, query, []);
    NewHrefParts(theme, href);
    AsWrittenQuery(theme, base, query);
  }

  /** `apply_theme` on an empty search falls back to light. */
  lemma ApplyThemeEmpty()
    ensures ApplyTheme([]) == "light"
  {
    ParseQsEmpty();
  }

  /** A `?` that comes after the fragment starts no query. */
  lemma SearchInFragment(base: string, rest: string)
    requires '#' !in base && '?' !in base
    ensures Search(base + ['#'] + rest) == []
  {
    PartitionAt(base, '#', rest);
  }

  /** `base#fragment` followed by `?query` keeps `?query` inside the fragment. */
  lemma FragmentHref(base: string, fragment: string, query: string)
    ensures base + ['#'] + fragment + ['?'] + query == base + ['#'] + (fragment + ['?'] + query)
  {
  }

  /**
   * As written, a fragment in an href without a query loses the theme: the
   * new query lands inside the fragment, where a browser does not look for
   * it, so `apply_theme` reads back `light` whatever theme was written.
   */
  lemma FragmentLosesTheme(theme: string, base: string, fragment: string)
    requires '#' !in base && '?' !in base && '?' !in fragment
    ensures ApplyTheme(Search(NewHrefAsWritten(theme, base + ['#'] + fragment))) == "light"
  {
    var href := base + ['#'] + fragment;
    assert '?' !in href;
    var query := UrlEncode(ThemedQuery(theme, []));
    assert Partition(href, '?') == (href, false, []);
    assert NewHrefAsWritten(theme, href) == href + ['?'] + query;
    FragmentHref(base, fragment, query);
    SearchInFragment(base, fragment + ['?'] + query);
    ApplyThemeEmpty();
  }

  /** The smallest such href: `p#f` switched to dark reads back light. */
  lemma FragmentExample()
    ensures ApplyTheme(Search(NewHrefAsWritten("dark", "p#f"))) == "light"
  {
    assert "p#f" == "p" + ['#'] + "f";
    FragmentLosesTheme("dark", "p", "f");
  }
}
