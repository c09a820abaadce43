/**
 * The per-request part of `transformIndexHtml`: from the cached lookup data,
 * the merged registry configuration and the request URL it resolves the
 * language, currency, registry slice, branch and url id, builds the `FW`
 * object, wraps its serialisation in a `<script>` and inserts that before
 * the first `</head>` of the page.
 */
module FwContext {
  import opened Optional
  import opened JsString
  import opened RegistryIni
  import opened UrlPrefix

  /** The `ExtraFw` part of the lookup answer; either field may be missing. */
  datatype ExtraFw = ExtraFw(urlid: Option<string>, realm: Option<map<string, string>>)

  /**
   * The `data` of the upstream URL lookup, as far as the page uses it:
   * `Registry_Url__`, `Languages`, `Branch`, `ExtraFw` and `Registry`, each
   * of which may be missing.
   */
  datatype LookupData = LookupData(
    registryUrl: Option<string>,
    languages: Option<seq<string>>,
    branch: Option<string>,
    extraFw: Option<ExtraFw>,
    registry: Option<map<string, map<string, string>>>)

  /** `a || b` on two possibly missing strings. */
  function Or(a: Option<string>, b: Option<string>): (r: Option<string>)
    ensures Truthy(a) ==> r == a
    ensures !Truthy(a) ==> r == b
  {
    if Truthy(a) then a else b
  }

  /** A map lookup that yields `undefined` for a missing key. */
  function Get<K, V>(m: map<K, V>, k: K): (r: Option<V>)
    ensures r.Some? <==> k in m
    ensures r.Some? ==> r.value == m[k]
  {
    if k in m then Some(m[k]) else None
  }

  /** `data.Languages || ['en-US']`: an array, even an empty one, is kept; a missing one becomes `['en-US']`. */
  function LanguagesOf(data: LookupData): (r: seq<string>)
    ensures data.languages.Some? ==> r == data.languages.value
    ensures data.languages.None? ==> r == ["en-US"]
  {
    data.languages.GetOr(["en-US"])
  }

  /** `languages[0]`, which is `undefined` for an empty list. */
  function DefaultLang(languages: seq<string>): (r: Option<string>)
    ensures r.Some? <==> languages != []
    ensures r.Some? ==> r.value == languages[0] && r.value in languages
  {
    if languages == [] then None else Some(languages[0])
  }

  /** The property name a value is looked up under: `undefined` becomes the key `"undefined"`. */
  function PropKey(v: Option<string>): string
  {
    v.GetOr("undefined")
  }

  /** `data.Registry?.[lang]`. */
  function RegistryEntry(data: LookupData, lang: Option<string>): (r: Option<map<string, string>>)
    ensures r.Some? <==> data.registry.Some? && PropKey(lang) in data.registry.value
    ensures r.Some? ==> r.value == data.registry.value[PropKey(lang)]
  {
    if data.registry.Some? then Get(data.registry.value, PropKey(lang)) else None
  }

  /** `urlContext.l || defaultLang`. */
  function Language(context: map<char, string>, languages: seq<string>): (r: Option<string>)
    ensures Truthy(Get(context, 'l')) ==> r == Some(context['l'])
    ensures !Truthy(Get(context, 'l')) ==> r == DefaultLang(languages)
  {
    Or(Get(context, 'l'), DefaultLang(languages))
  }

  /**
   * `urlContext.c || data.Registry?.[language]?.Currency_Default ||
   * cachedConfig.Currency_List || 'USD'`.
   */
  function Currency(context: map<char, string>, data: LookupData, config: Config, language: Option<string>): (r: string)
    ensures r != []
    ensures Truthy(Get(context, 'c')) ==> r == context['c']
  {
    var fromRegistry := match RegistryEntry(data, language)
      case Some(entry) => Get(entry, "Currency_Default")
      case None => None;
    var chosen := Or(Get(context, 'c'), Or(fromRegistry, Get(config, "Currency_List")));
    if Truthy(chosen) then chosen.value else "USD"
  }

  /** `data.Registry?.[language] || data.Registry?.[defaultLang] || {}`: an entry, even an empty one, is kept. */
  function RegistrySlice(data: LookupData, language: Option<string>, defaultLang: Option<string>): (r: map<string, string>)
    ensures RegistryEntry(data, language).Some? ==> r == RegistryEntry(data, language).value
    ensures RegistryEntry(data, language).None? && RegistryEntry(data, defaultLang).Some? ==> r == RegistryEntry(data, defaultLang).value
    ensures RegistryEntry(data, language).None? && RegistryEntry(data, defaultLang).None? ==> r == map[]
  {
    match RegistryEntry(data, language)
    case Some(entry) => entry
    case None => RegistryEntry(data, defaultLang).GetOr(map[])
  }

  /** `data.Branch || 'master'`. */
  function Branch(data: LookupData): (r: string)
    ensures r != []
    ensures Truthy(data.branch) ==> r == data.branch.value
    ensures !Truthy(data.branch) ==> r == "master"
  {
    if Truthy(data.branch) then data.branch.value else "master"
  }

  /** `data.ExtraFw?.urlid || data.Registry_Url__`. */
  function UrlId(data: LookupData): (r: Option<string>)
    ensures data.extraFw.Some? && Truthy(data.extraFw.value.urlid) ==> r == data.extraFw.value.urlid
    ensures !(data.extraFw.Some? && Truthy(data.extraFw.value.urlid)) ==> r == data.registryUrl
  {
    Or(if data.extraFw.Some? then data.extraFw.value.urlid else None, data.registryUrl)
  }

  /** `data.ExtraFw?.Realm || {}`. */
  function RealmOf(data: LookupData): (r: map<string, string>)
    ensures data.extraFw.Some? && data.extraFw.value.realm.Some? ==> r == data.extraFw.value.realm.value
    ensures !(data.extraFw.Some? && data.extraFw.value.realm.Some?) ==> r == map[]
  {
    if data.extraFw.Some? then data.extraFw.value.realm.GetOr(map[]) else map[]
  }

  /** `ctx.originalUrl || '/'`. */
  function RequestUrl(originalUrl: Option<string>): (r: string)
    ensures r != []
    ensures Truthy(originalUrl) ==> r == originalUrl.value
    ensures !Truthy(originalUrl) ==> r == "/"
  {
    if Truthy(originalUrl) then originalUrl.value else "/"
  }

  /**
   * `const [pathPart, queryString] = requestUrl.split('?')`: the text before
   * the first `?`, and the text between the first and the second `?` when
   * there is a `?` at all.
   */
  function SplitUrl(requestUrl: string): (r: (string, Option<string>))
  {
    var pieces := Split(requestUrl, '?');
    (pieces[0], if |pieces| > 1 then Some(pieces[1]) else None)
  }

  /**
   * The path part ends at the first `?`; without a `?` the whole URL is the
   * path. The query is the text between the first `?` and the second one,
   * or the end of the URL.
   */
  lemma SplitUrlParts(requestUrl: string)
    ensures var (pathPart, query) := SplitUrl(requestUrl);
      && '?' !in pathPart
      && (query.None? <==> '?' !in requestUrl)
      && (query.None? ==> pathPart == requestUrl)
      && (query.Some? ==> '?' !in query.value && |pathPart| + 1 + |query.value| <= |requestUrl|
                          && requestUrl[..|pathPart| + 1 + |query.value|] == pathPart + "?" + query.value
                          && (|pathPart| + 1 + |query.value| == |requestUrl|
                              || requestUrl[|pathPart| + 1 + |query.value|] == '?'))
  {
    var pieces := Split(requestUrl, '?');
    SplitNoSeparator(requestUrl, '?');
    SplitJoinsBack(requestUrl, '?');
    SplitFirst(requestUrl, '?');
    if |pieces| > 1 {
      var rest := Join(pieces[1..], "?");
      assert requestUrl == (pieces[0] + "?") + rest;
      JoinStartsWithFirst(pieces[1..], "?");
      JoinAfterFirst(pieces[1..], '?');
      PrefixThenStart(pieces[0] + "?", rest, pieces[1]);
      PrefixThenAt(pieces[0] + "?", rest, |pieces[1]|);
    }
  }

  /** Position `k` of `rest` is position `|x| + k` of `x + rest`. A separate step, to keep the proofs that use it small. */
  lemma PrefixThenAt(x: string, rest: string, k: nat)
    ensures |x + rest| == |x| + |rest|
    ensures k < |rest| ==> (x + rest)[|x| + k] == rest[k]
  {
  }

  /** The joined text either is the first piece or continues after it with the separator. */
  lemma JoinAfterFirst(pieces: seq<string>, sep: char)
    requires |pieces| >= 1
    ensures var j := Join(pieces, [sep]);
      |pieces[0]| == |j| || (|pieces[0]| < |j| && j[|pieces[0]|] == sep)
  {
    if |pieces| > 1 {
      assert Join(pieces, [sep]) == pieces[0] + ([sep] + Join(pieces[1..], [sep]));
    }
  }

  /** When `rest` starts with `y`, `x + rest` starts with `x + y`. */
  lemma PrefixThenStart(x: string, rest: string, y: string)
    requires |y| <= |rest| && rest[..|y|] == y
    ensures |x| + |y| <= |x + rest| && (x + rest)[..|x| + |y|] == x + y
  {
  }

  /** The joined text starts with the first piece. */
  lemma JoinStartsWithFirst(pieces: seq<string>, sep: string)
    requires |pieces| >= 1
    ensures |pieces[0]| <= |Join(pieces, sep)| && Join(pieces, sep)[..|pieces[0]|] == pieces[0]
  {
    if |pieces| > 1 {
      assert Join(pieces, sep) == pieces[0] + (sep + Join(pieces[1..], sep));
    }
  }

  /** The `URL` member of `FW`. */
  datatype UrlObject = UrlObject(full: string, host: string, path: string, scheme: string, query: Option<string>)

  /** The `Context` member of `FW`: branch, currency and language. */
  datatype FwCtx = FwCtx(b: string, c: string, l: Option<string>)

  /** The `FW` object the page receives; `uuid`, `token` and `tokenExp` come from the plugin instance. */
  datatype FwObject = FwObject(
    context: FwCtx,
    get: map<string, string>,
    locale: Option<string>,
    realm: map<string, string>,
    registry: map<string, string>,
    url: UrlObject,
    ssrDiag: string,
    cookiesLocale: Option<string>,
    hostname: string,
    mode: string,
    path: string,
    prefix: string,
    token: string,
    tokenExp: int,
    urlid: Option<string>,
    uuid: string)

  /** The development server's address, as the `URL` member spells it. */
  const DevHost := "localhost:5173"

  /**
   * The `FW` object for one request, from the lookup data, the merged
   * configuration, the request URL, the result of `parsePrefix` on its path
   * part and the decoded query.
   */
  function BuildFw(data: LookupData, config: Config, requestUrl: string, parsed: PrefixResult,
                   get: map<string, string>, token: string, tokenExp: int, uuid: string): (fw: FwObject)
    ensures var language := Language(parsed.context, LanguagesOf(data));
      && fw.context == FwCtx(Branch(data), Currency(parsed.context, data, config, language), language)
      && fw.locale == language && fw.cookiesLocale == language
      && fw.registry == RegistrySlice(data, language, DefaultLang(LanguagesOf(data)))
    ensures fw.realm == RealmOf(data) && fw.urlid == UrlId(data)
    ensures fw.prefix == parsed.prefix && fw.path == parsed.remainingPath
    ensures fw.url.full == "http://" + DevHost + requestUrl && fw.url.path == SplitUrl(requestUrl).0
    ensures fw.url.host == DevHost && fw.url.scheme == "http"
    ensures fw.url.query.Some? <==> Truthy(SplitUrl(requestUrl).1)
    ensures fw.url.query.Some? ==> fw.url.query == SplitUrl(requestUrl).1
    ensures fw.context.b != [] && fw.context.c != []
    ensures fw.ssrDiag == "nossr" && fw.hostname == "localhost" && fw.mode == "client"
    ensures fw.token == token && fw.tokenExp == tokenExp && fw.uuid == uuid && fw.get == get
  {
    var languages := LanguagesOf(data);
    var defaultLang := DefaultLang(languages);
    var (pathPart, queryString) := SplitUrl(requestUrl);
    var language := Language(parsed.context, languages);
    var currency := Currency(parsed.context, data, config, language);
    FwObject(
      FwCtx(Branch(data), currency, language),
      get,
      language,
      RealmOf(data),
      RegistrySlice(data, language, defaultLang),
      UrlObject("http://" + DevHost + requestUrl, DevHost, pathPart, "http",
                if Truthy(queryString) then queryString else None),
      "nossr",
      language,
      "localhost",
      "client",
      parsed.remainingPath,
      parsed.prefix,
      token,
      tokenExp,
      UrlId(data),
      uuid)
  }

  /**
   * The language of the page is always one the site supports: the locale
   * segment of the path when there is one (it was checked against the
   * list), the first supported language otherwise. There is no language
   * exactly when the site's list is empty.
   */
  lemma LanguageSupported(data: LookupData, config: Config, requestUrl: string,
                          get: map<string, string>, token: string, tokenExp: int, uuid: string)
    ensures var languages := LanguagesOf(data);
      var fw := BuildFw(data, config, requestUrl, ParsePrefixSpec(SplitUrl(requestUrl).0, languages), get, token, tokenExp, uuid);
      && (fw.locale.Some? ==> fw.locale.value in languages)
      && (fw.locale.None? <==> languages == [])
  {
    var languages := LanguagesOf(data);
    var parsed := ParsePrefixSpec(SplitUrl(requestUrl).0, languages);
    LocaleSupported(SplitUrl(requestUrl).0, languages);
  }

  /** The prefix and the path of `FW` put together give the path part of the URL back (or `/` was left). */
  lemma PathReconstructs(data: LookupData, config: Config, requestUrl: string,
                         get: map<string, string>, token: string, tokenExp: int, uuid: string)
    ensures var languages := LanguagesOf(data);
      var fw := BuildFw(data, config, requestUrl, ParsePrefixSpec(SplitUrl(requestUrl).0, languages), get, token, tokenExp, uuid);
      fw.url.path == fw.prefix + fw.path || (fw.url.path == fw.prefix && fw.path == "/")
  {
    Reconstruct(SplitUrl(requestUrl).0, LanguagesOf(data));
  }

  /**
   * The currency falls back step by step: the `/c/` segment, then the
   * registry's `Currency_Default` for the language, then the configuration's
   * `Currency_List`, then `USD`.
   */
  lemma CurrencyFallback(context: map<char, string>, data: LookupData, config: Config, language: Option<string>)
    ensures var r := Currency(context, data, config, language);
      var entry := RegistryEntry(data, language);
      var fromRegistry := if entry.Some? then Get(entry.value, "Currency_Default") else None;
      && (!Truthy(Get(context, 'c')) && Truthy(fromRegistry) ==> r == fromRegistry.value)
      && (!Truthy(Get(context, 'c')) && !Truthy(fromRegistry) && Truthy(Get(config, "Currency_List")) ==> r == config["Currency_List"])
      && (!Truthy(Get(context, 'c')) && !Truthy(fromRegistry) && !Truthy(Get(config, "Currency_List")) ==> r == "USD")
  {
  }

  /** The opening of the injected script, up to the serialised object. */
  const ScriptHead := "<script type=\"text/javascript\">\nvar FW = (function() {\n    var my = "

  /** The end of the injected script, after the serialised object. */
  const ScriptTail := ";\n    return my;\n}());\n</script>\n"

  /** `json.split('\n').join('\n    ')`: every line after the first indented by four spaces. */
  function Indent(json: string): string
  {
    Join(Split(json, '\n'), "\n    ")
  }

  /** The lines of `pieces`, every one after the first with four spaces in front. */
  function IndentRest(pieces: seq<string>): (r: seq<string>)
    requires |pieces| >= 1
    ensures |r| == |pieces| && r[0] == pieces[0]
    ensures forall i :: 1 <= i < |pieces| ==> r[i] == "    " + pieces[i]
  {
    [pieces[0]] + seq(|pieces| - 1, i requires 0 <= i < |pieces| - 1 => "    " + pieces[i + 1])
  }

  /**
   * The indented text has the same lines as the serialisation, every line
   * after the first with four spaces in front.
   */
  lemma IndentLines(json: string)
    ensures Split(Indent(json), '\n') == IndentRest(Split(json, '\n'))
  {
    var pieces := Split(json, '\n');
    SplitNoSeparator(json, '\n');
    JoinIndented(pieces);
    var lines := IndentRest(pieces);
    forall i | 0 <= i < |lines| ensures '\n' !in lines[i] {
      if i > 0 {
        assert lines[i] == "    " + pieces[i];
      }
    }
    SplitJoin(lines, '\n');
  }

  lemma {:induction false} JoinIndented(pieces: seq<string>)
    requires |pieces| >= 1
    ensures Join(pieces, "\n    ") == Join(IndentRest(pieces), "\n")
  {
    if |pieces| > 1 {
      var b := IndentRest(pieces[1..]);
      JoinIndented(pieces[1..]);
      IndentRestCons(pieces);
      JoinCons(pieces[0], ["    " + b[0]] + b[1..], "\n");
      JoinPrefixFirst("    ", b, "\n");
      IndentSeparator(pieces[0], Join(b, "\n"));
    }
  }

  /** Indenting a list of two or more lines: the first line, then the second indented, then the rest of the tail's indentation. */
  lemma IndentRestCons(pieces: seq<string>)
    requires |pieces| > 1
    ensures var b := IndentRest(pieces[1..]);
      IndentRest(pieces) == [pieces[0]] + (["    " + b[0]] + b[1..])
  {
  }

  /** The indenting separator is a newline followed by four spaces. A separate step, to keep the proofs that use it small. */
  lemma IndentSeparator(x: string, y: string)
    ensures x + "\n    " + y == x + "\n" + ("    " + y)
  {
  }

  lemma JoinPrefixFirst(p: string, pieces: seq<string>, sep: string)
    requires |pieces| >= 1
    ensures Join([p + pieces[0]] + pieces[1..], sep) == p + Join(pieces, sep)
  {
    var q := [p + pieces[0]] + pieces[1..];
    assert q[1..] == pieces[1..];
  }

  /** The `<script>` element that defines `FW`, around the serialised object. */
  function FwScript(json: string): (r: string)
    ensures |r| >= |ScriptHead| + |ScriptTail|
    ensures r[..|ScriptHead|] == ScriptHead && r[|r| - |ScriptTail|..] == ScriptTail
    ensures r[|ScriptHead|..|r| - |ScriptTail|] == Indent(json)
  {
    var r := ScriptHead + Indent(json) + ScriptTail;
    assert r[|ScriptHead|..|r| - |ScriptTail|] == Indent(json);
    r
  }

  /** The closing tag the script is inserted before. */
  const HeadClose := "</head>"

  /**
   * The script inserted immediately before the first `</head>`; a page
   * without `</head>` is left unchanged. This is the insertion the plugin
   * means to make.
   */
  function InjectScript(html: string, script: string): (r: string)
    ensures FindFirst(html, HeadClose).None? ==> r == html
    ensures FindFirst(html, HeadClose).Some? ==> var i := FindFirst(html, HeadClose).value;
      |r| == |html| + |script| && r[..i] == html[..i] && r[i..i + |script|] == script && r[i + |script|..] == html[i..]
  {
    match FindFirst(html, HeadClose)
    case None => html
    case Some(i) =>
      var r := html[..i] + script + html[i..];
      assert r[..i] == html[..i];
      assert r[i..i + |script|] == script;
      assert r[i + |script|..] == html[i..];
      r
  }

  /** Taking the script out again gives the page back, and the first `</head>` now follows the script. */
  lemma InjectScriptInverse(html: string, script: string, i: nat)
    requires FindFirst(html, HeadClose) == Some(i)
    ensures var r := InjectScript(html, script);
      r[..i] + r[i + |script|..] == html && OccursAt(r, HeadClose, i + |script|)
  {
    var r := InjectScript(html, script);
    assert html == html[..i] + html[i..];
    assert r[i + |script|..][..|HeadClose|] == html[i..][..|HeadClose|];
  }

  /** `html.replace('</head>', `${fwScript}</head>`)` as written: the replacement string is expanded for `$` patterns. */
  function InjectAsWritten(html: string, script: string): string
  {
    Replace(html, HeadClose, script + HeadClose)
  }

  /** When the script holds no `$`, the call as written makes exactly the intended insertion. */
  lemma AsWrittenAgreesWithoutDollar(html: string, script: string)
    requires '$' !in script
    ensures InjectAsWritten(html, script) == InjectScript(html, script)
  {
    assert '$' !in script + HeadClose;
    match FindFirst(html, HeadClose)
    case None =>
    case Some(i) =>
      assert html[i..] == HeadClose + html[i + |HeadClose|..];
  }

  /**
   * A script that holds `$&` (which a request URL such as `/?a=$&b=1`
   * carries into the serialised object) is not inserted as it is: the call
   * as written puts `</head>` where the script had `$&`.
   */
  lemma AsWrittenExpandsDollar()
    ensures InjectAsWritten(HeadClose, "$&") == HeadClose + HeadClose
    ensures InjectScript(HeadClose, "$&") == "$&" + HeadClose
  {
    HeadCloseAlone();
    SubstituteMatched(HeadClose, HeadClose, [], []);
  }

  /**
   * A `` $` `` in the script pastes the whole page before the first `</head>`
   * into the script, where the script had the pattern.
   */
  lemma AsWrittenPastesHead(html: string, x: string, y: string, i: nat)
    requires FindFirst(html, HeadClose) == Some(i)
    requires '$' !in x && '$' !in y
    ensures InjectAsWritten(html, x + "$`" + y) == html[..i] + x + html[..i] + y + html[i..]
  {
    HeadExpansion(x, y, html[..i], html[i + |HeadClose|..]);
    AsWrittenExpansion(html, i, x + "$`" + y, x + html[..i] + y);
  }

  /**
   * A `$'` in the script pastes the whole page after the first `</head>`
   * into the script, where the script had the pattern.
   */
  lemma AsWrittenPastesRest(html: string, x: string, y: string, i: nat)
    requires FindFirst(html, HeadClose) == Some(i)
    requires '$' !in x && '$' !in y
    ensures InjectAsWritten(html, x + "$'" + y) == html[..i] + x + html[i + |HeadClose|..] + y + html[i..]
  {
    RestExpansion(x, y, html[..i], html[i + |HeadClose|..]);
    AsWrittenExpansion(html, i, x + "$'" + y, x + html[i + |HeadClose|..] + y);
  }

  /** The replacement `x`, `` $` ``, `y`, `</head>` expands with the text before the match in place of the pattern. */
  lemma HeadExpansion(x: string, y: string, before: string, after: string)
    requires '$' !in x && '$' !in y
    ensures Substitution(x + "$`" + y + HeadClose, HeadClose, before, after) == x + before + y + HeadClose
  {
    NoDollarTail(y);
    assert x + "$`" + y + HeadClose == x + "$`" + (y + HeadClose);
    ExpandBeforeBetween(x, y + HeadClose, HeadClose, before, after);
  }

  /** The replacement `x`, `$'`, `y`, `</head>` expands with the text after the match in place of the pattern. */
  lemma RestExpansion(x: string, y: string, before: string, after: string)
    requires '$' !in x && '$' !in y
    ensures Substitution(x + "$'" + y + HeadClose, HeadClose, before, after) == x + after + y + HeadClose
  {
    NoDollarTail(y);
    assert x + "$'" + y + HeadClose == x + "$'" + (y + HeadClose);
    ExpandAfterBetween(x, y + HeadClose, HeadClose, before, after);
  }

  /** Text without `$` followed by `</head>` holds no `$`. A separate step, to keep the proofs that use it small. */
  lemma NoDollarTail(y: string)
    requires '$' !in y
    ensures '$' !in y + HeadClose
  {
  }

  /** When the replacement for the first `</head>` expands to `expanded` and `</head>`, the call as written inserts `expanded`. */
  lemma AsWrittenExpansion(html: string, i: nat, script: string, expanded: string)
    requires FindFirst(html, HeadClose) == Some(i)
    requires Substitution(script + HeadClose, HeadClose, html[..i], html[i + |HeadClose|..]) == expanded + HeadClose
    ensures InjectAsWritten(html, script) == html[..i] + expanded + html[i..]
  {
    var before, after := html[..i], html[i + |HeadClose|..];
    assert InjectAsWritten(html, script) == before + (expanded + HeadClose) + after;
    PastedPage(html, i, expanded);
  }

  /** Putting `s` and `</head>` where the first `</head>` was is inserting `s` before it. */
  lemma PastedPage(html: string, i: nat, s: string)
    requires OccursAt(html, HeadClose, i)
    ensures html[..i] + (s + HeadClose) + html[i + |HeadClose|..] == html[..i] + s + html[i..]
  {
    assert html[i..] == HeadClose + html[i + |HeadClose|..];
  }

  /** A page that is only `</head>` has its first `</head>` at 0, with nothing before or after it. A separate step, to keep the proofs that use it small. */
  lemma HeadCloseAlone()
    ensures FindFirst(HeadClose, HeadClose) == Some(0)
    ensures HeadClose[..0] == [] && HeadClose[0..] == HeadClose && HeadClose[|HeadClose|..] == []
  {
    assert OccursAt(HeadClose, HeadClose, 0);
  }
}
