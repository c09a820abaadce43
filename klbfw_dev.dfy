/**
 * The `klbfw-dev` plugin instance: the registry configuration and the
 * upstream lookup data it caches on first use, and `transformIndexHtml`,
 * which either returns the page unchanged or returns it with the `FW`
 * script inserted. File contents, the lookup, the JSON serialisation and
 * the query decoding are passed in.
 */
module KlbfwDev {
  import opened Optional
  import opened JsString
  import opened RegistryIni
  import opened UrlPrefix
  import opened FwContext

  /** What the upstream lookup gave: it threw (the fetch or the JSON decoding), or it answered, with or without `data`. */
  datatype LookupOutcome = Failed | Answered(data: Option<LookupData>)

  /** The data a lookup leaves in the cache: none when it threw or answered without data. */
  function Received(outcome: LookupOutcome): Option<LookupData>
  {
    if outcome.Answered? then outcome.data else None
  }

  /** The lookup endpoint; the realm is appended to it. */
  const LookupEndpoint := "https://ws.atonline.com/_special/rest/Registry/Url:lookup?host=localhost@"

  /** The URL the lookup for `realm` is sent to. */
  function LookupUrl(realm: string): (r: string)
    ensures |r| == |LookupEndpoint| + |realm|
    ensures r[..|LookupEndpoint|] == LookupEndpoint && r[|LookupEndpoint|..] == realm
  {
    LookupEndpoint + realm
  }

  /** `parseIniFile(path)` on a file with contents `file`; a file that cannot be read gives the empty map. */
  function ReadIni(file: Option<string>): Config
  {
    if file.Some? then IniText(file.value) else map[]
  }

  /** Reading a registry file: the `catch` of an unreadable file, else the line loop. */
  method ReadIniFile(file: Option<string>) returns (config: Config)
    ensures config == ReadIni(file)
    ensures file.None? ==> config == map[]
  {
    if file.None? {
      return map[];
    }
    config := ParseIniFile(file.value);
  }

  /** `{ ...registry, ...registryDev }` of the two files. */
  function LoadConfig(registryIni: Option<string>, registryDevIni: Option<string>): Config
  {
    Merge(ReadIni(registryIni), ReadIni(registryDevIni))
  }

  /** Reading both registry files and merging them, the development file winning. */
  method ReadConfigFiles(registryIni: Option<string>, registryDevIni: Option<string>) returns (config: Config)
    ensures config == LoadConfig(registryIni, registryDevIni)
  {
    var registry := ReadIniFile(registryIni);
    var registryDev := ReadIniFile(registryDevIni);
    config := Merge(registry, registryDev);
  }

  /** `for (const [key, value] of params) GET[key] = value`: the decoded pairs in order, a later key overriding. */
  method CollectQuery(params: seq<(string, string)>) returns (get: map<string, string>)
    ensures get == EntriesMap(params)
  {
    get := map[];
    for i := 0 to |params|
      invariant get == EntriesMap(params[..i])
    {
      assert params[..i + 1][..i] == params[..i];
      get := get[params[i].0 := params[i].1];
    }
    assert params[..|params|] == params;
  }

  /** The `GET` member: the decoded query when there is a non-empty one, else nothing. */
  function QueryMap(query: Option<string>, searchParams: string -> seq<(string, string)>): map<string, string>
  {
    if Truthy(query) then EntriesMap(searchParams(query.value)) else map[]
  }

  /**
   * The page served for a request once the configuration and the lookup
   * data are known: the `FW` script for this request inserted before the
   * first `</head>`.
   */
  function Page(html: string, data: LookupData, config: Config, originalUrl: Option<string>,
                stringify: FwObject -> string, searchParams: string -> seq<(string, string)>,
                token: string, tokenExp: int, uuid: string): string
  {
    var requestUrl := RequestUrl(originalUrl);
    var (pathPart, queryString) := SplitUrl(requestUrl);
    var parsed := ParsePrefixSpec(pathPart, LanguagesOf(data));
    var fw := BuildFw(data, config, requestUrl, parsed, QueryMap(queryString, searchParams), token, tokenExp, uuid);
    InjectScript(html, FwScript(stringify(fw)))
  }

  /** The plugin instance returned by `klbfwDev()`: its closure state and its page hook. */
  class Plugin {
    var cachedApiData: Option<LookupData>
    var cachedConfig: Option<Config>
    const uuid: string
    const token: string
    const tokenExp: int
    /** The URLs the lookup has been sent to, in order. */
    ghost var lookups: seq<string>
    /** How many times the registry files have been read. */
    ghost var configReads: nat

    /** The caches: the files are read once, with the first request; data is only ever cached after a lookup. */
    ghost predicate Valid()
      reads this
    {
      && (cachedConfig.None? <==> configReads == 0)
      && configReads <= 1
      && (cachedConfig.None? ==> lookups == [] && cachedApiData.None?)
      && (cachedApiData.Some? ==> lookups != [])
    }

    /** `klbfwDev()`: nothing cached yet; `uuid`, `token` and `tokenExp` are fixed for the instance's life. */
    constructor(uuid: string, token: string, tokenExp: int)
      ensures Valid()
      ensures cachedApiData == None && cachedConfig == None && lookups == [] && configReads == 0
      ensures this.uuid == uuid && this.token == token && this.tokenExp == tokenExp
    {
      this.uuid := uuid;
      this.token := token;
      this.tokenExp := tokenExp;
      cachedApiData := None;
      cachedConfig := None;
      lookups := [];
      configReads := 0;
    }

    /**
     * `transformIndexHtml(html, ctx)`. The files are read on the first call
     * only. Without a `Realm` the page is returned unchanged. The lookup is
     * made only while no data is cached; if it throws or answers without
     * `data`, the page is returned unchanged and the next call tries again.
     * Otherwise the page gets the `FW` script.
     */
    method TransformIndexHtml(html: string, originalUrl: Option<string>,
                              registryIni: Option<string>, registryDevIni: Option<string>,
                              lookup: string -> LookupOutcome,
                              stringify: FwObject -> string,
                              searchParams: string -> seq<(string, string)>)
      returns (out: string)
      requires Valid()
      modifies this
      ensures Valid()
      ensures old(cachedConfig).Some? ==> cachedConfig == old(cachedConfig) && configReads == old(configReads)
      ensures old(cachedConfig).None? ==> cachedConfig == Some(LoadConfig(registryIni, registryDevIni)) && configReads == 1
      ensures old(cachedApiData).Some? ==> cachedApiData == old(cachedApiData) && lookups == old(lookups)
      ensures !Truthy(Get(cachedConfig.value, "Realm")) ==>
        out == html && cachedApiData == old(cachedApiData) && lookups == old(lookups)
      ensures var realm := Get(cachedConfig.value, "Realm");
        Truthy(realm) && old(cachedApiData).None? ==>
          lookups == old(lookups) + [LookupUrl(realm.value)]
          && cachedApiData == Received(lookup(LookupUrl(realm.value)))
      ensures Truthy(Get(cachedConfig.value, "Realm")) && cachedApiData.None? ==> out == html
      ensures Truthy(Get(cachedConfig.value, "Realm")) && cachedApiData.Some? ==>
        out == Page(html, cachedApiData.value, cachedConfig.value, originalUrl, stringify, searchParams, token, tokenExp, uuid)
    {
      var config := LoadConfigOnce(registryIni, registryDevIni);
      var realm := Get(config, "Realm");
      if !Truthy(realm) {
        return html;
      }
      var data := LookupOnce(realm.value, lookup);
      if data.None? {
        return html;
      }
      out := RenderPage(html, data.value, config, originalUrl, stringify, searchParams);
    }

    /** The configuration, read from the files on the first call only. */
    method LoadConfigOnce(registryIni: Option<string>, registryDevIni: Option<string>) returns (config: Config)
      requires Valid()
      modifies this`cachedConfig, this`configReads
      ensures Valid()
      ensures cachedConfig == Some(config)
      ensures old(cachedConfig).Some? ==> config == old(cachedConfig).value && configReads == old(configReads)
      ensures old(cachedConfig).None? ==> config == LoadConfig(registryIni, registryDevIni) && configReads == 1
    {
      if cachedConfig.None? {
        var loaded := ReadConfigFiles(registryIni, registryDevIni);
        cachedConfig := Some(loaded);
        configReads := configReads + 1;
      }
      config := cachedConfig.value;
    }

    /**
     * The lookup data: the cached data if there is some, else the outcome of
     * a lookup for `realm`, which is cached when it carries data.
     */
    method LookupOnce(realm: string, lookup: string -> LookupOutcome) returns (data: Option<LookupData>)
      requires Valid() && cachedConfig.Some?
      modifies this`cachedApiData, this`lookups
      ensures Valid()
      ensures data == cachedApiData
      ensures old(cachedApiData).Some? ==> cachedApiData == old(cachedApiData) && lookups == old(lookups)
      ensures old(cachedApiData).None? ==>
        lookups == old(lookups) + [LookupUrl(realm)] && cachedApiData == Received(lookup(LookupUrl(realm)))
    {
      if cachedApiData.None? {
        var url := LookupUrl(realm);
        lookups := lookups + [url];
        var outcome := lookup(url);
        if outcome.Failed? {
          return None;
        }
        cachedApiData := outcome.data;
      }
      data := cachedApiData;
    }

    /** The page for one request once the configuration and the lookup data are known. */
    method RenderPage(html: string, data: LookupData, config: Config, originalUrl: Option<string>,
                      stringify: FwObject -> string, searchParams: string -> seq<(string, string)>)
      returns (out: string)
      ensures out == Page(html, data, config, originalUrl, stringify, searchParams, token, tokenExp, uuid)
    {
      var languages := LanguagesOf(data);
      var requestUrl := RequestUrl(originalUrl);
      var (pathPart, queryString) := SplitUrl(requestUrl);
      var parsed := ParsePrefix(pathPart, languages);
      var get: map<string, string> := map[];
      if Truthy(queryString) {
        get := CollectQuery(searchParams(queryString.value));
      }
      var fw := BuildFw(data, config, requestUrl, parsed, get, token, tokenExp, uuid);
      out := InjectScript(html, FwScript(stringify(fw)));
    }
  }

  /**
   * Two requests for the same URL on a fresh instance whose files carry a
   * realm and whose first lookup answers with data: both get the same page,
   * and the second makes no lookup and reads no file, whatever the files
   * and the lookup would give the second time.
   */
  method CachedSecondRequest(html: string, originalUrl: Option<string>,
                             registryIni: Option<string>, registryDevIni: Option<string>,
                             lookup: string -> LookupOutcome, laterIni: Option<string>, laterLookup: string -> LookupOutcome,
                             stringify: FwObject -> string, searchParams: string -> seq<(string, string)>,
                             uuid: string, token: string, tokenExp: int)
      returns (first: string, second: string)
    requires Truthy(Get(LoadConfig(registryIni, registryDevIni), "Realm"))
    requires var realm := Get(LoadConfig(registryIni, registryDevIni), "Realm").value;
      lookup(LookupUrl(realm)).Answered? && lookup(LookupUrl(realm)).data.Some?
    ensures first == second
    ensures first == Page(html, lookup(LookupUrl(Get(LoadConfig(registryIni, registryDevIni), "Realm").value)).data.value,
                          LoadConfig(registryIni, registryDevIni), originalUrl, stringify, searchParams, token, tokenExp, uuid)
  {
    var plugin := new Plugin(uuid, token, tokenExp);
    first := plugin.TransformIndexHtml(html, originalUrl, registryIni, registryDevIni, lookup, stringify, searchParams);
    assert |plugin.lookups| == 1;
    second := plugin.TransformIndexHtml(html, originalUrl, laterIni, laterIni, laterLookup, stringify, searchParams);
    assert |plugin.lookups| == 1 && plugin.configReads == 1;
  }
}
