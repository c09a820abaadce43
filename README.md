# klbfw-dev and the version-hint service worker, in Dafny

This project models two parts of the Vue/Vite starter template.

The first is the `klbfw-dev` Vite plugin. In development mode it stands in for the production server's `FW` object. On its first page request it reads the registry files `etc/registry.ini` and `etc/registry_dev.ini` and merges them, the development file winning. If the merged configuration names a `Realm`, it looks up the site's URL data upstream and caches the answer. For every page it then:

- takes the locale and currency prefix segments (`/l/en-US/c/USD/...`) off the request path;
- decodes the query string;
- resolves the language, currency, registry slice, branch and url id;
- builds the `FW` object and wraps its serialisation in a `<script>`;
- inserts that script before the page's `</head>`.

The second is the static service worker. It holds a version that the page sets or clears by messages. Same-origin asset requests outside `/_` are re-issued with an `X-Version-Hint` header carrying that version.

Modules:

- `Optional`: the `Option` type.
- `JsString`: the JavaScript string built-ins the code relies on, with their edge cases. These are `trim` with the ECMAScript white-space set, `indexOf`, `split` on one character, `join`, `startsWith`, and `replace` with a string pattern, including its `$` substitution patterns.
- `RegistryIni`: `parseIniFile` as a loop over the lines, proved against a fold over the parsed line entries. It also holds the merge of the two files.
- `UrlPrefix`: `parsePrefix` as a `while` loop, proved against a recursive scan of the path.
- `FwContext`: the per-request resolution, the `FW` object, the script text and its insertion into the page.
- `KlbfwDev`: the plugin instance as a class. Its fields are the two caches, `cachedConfig` and `cachedApiData`, and its methods are `transformIndexHtml` and its steps.
- `ServiceWorker`: the worker as a class holding `currentVersion`. It has the message and fetch listeners, and the fetch decision as a pure function.

Everything the code takes from outside is a parameter:

- the file contents, with `None` for a file that cannot be read;
- the outcome of the upstream lookup;
- `JSON.stringify` and the `URLSearchParams` decoding, as function-typed parameters;
- the request URL;
- the parsed request, for the worker.

Two details of the code are easy to miss:

- The upstream lookup is made again on every request while no data is cached, that is after a lookup that threw or that answered without `data`. `KlbfwDev.Plugin.LookupOnce` models this.
- A registry line whose `=` is its first character is skipped, so no empty key is stored. `RegistryIni.EntryOf` models this.

## Model

| member | source | states |
|---|---|---|
| JsString.Trim | src/plugins/klbfw-dev.ts:33 | The result has no white space at either end and is no longer than the input. |
| JsString.TrimIsInfix | src/plugins/klbfw-dev.ts:33 | The trimmed line is the contiguous part of the line that starts where the leading white space ends. |
| JsString.TrimPadded | src/plugins/klbfw-dev.ts:38-39 | Trimming already-trimmed text surrounded by white space gives back exactly that text. |
| JsString.IndexOf | src/plugins/klbfw-dev.ts:36 | The result is -1 when the character is absent; otherwise it is a position holding that character with no earlier occurrence. |
| JsString.IndexOfFirst | src/plugins/klbfw-dev.ts:36 | A position holding the character, with no occurrence before it, is what `indexOf` returns. |
| JsString.Split | src/plugins/klbfw-dev.ts:32 | There is always at least one piece, even for an empty string. |
| JsString.SplitNoSeparator | src/plugins/klbfw-dev.ts:32 | No piece contains the separator. |
| JsString.SplitJoinsBack | src/plugins/klbfw-dev.ts:32 | Joining the pieces with the separator gives back the input. |
| JsString.SplitFirst | src/plugins/klbfw-dev.ts:154 | The first piece is the text before the first separator. The input is one piece exactly when the separator does not occur. |
| JsString.SplitJoin | src/plugins/klbfw-dev.ts:32 | Splitting the join of separator-free pieces gives back those pieces. |
| JsString.Substitution | src/plugins/klbfw-dev.ts:218 | A replacement template without `$` is inserted verbatim. |
| JsString.SubstituteMatched | src/plugins/klbfw-dev.ts:218 | A template made of `$&` and then `$`-free text expands to the matched text followed by that text. |
| JsString.SubstituteDollar | src/plugins/klbfw-dev.ts:218 | `$$` at the front of a template expands to one `$`, and the rest is expanded on its own. |
| JsString.SubstituteBefore | src/plugins/klbfw-dev.ts:218 | `` $` `` at the front of a template expands to the text before the match. |
| JsString.SubstituteAfter | src/plugins/klbfw-dev.ts:218 | `$'` at the front of a template expands to the text after the match. |
| JsString.SubstituteOtherDollar | src/plugins/klbfw-dev.ts:218 | A `$` followed by any character that does not form a pattern is kept, and expansion resumes at that character. |
| JsString.SubstituteTrailingDollar | src/plugins/klbfw-dev.ts:218 | A lone `$` at the end of a template is kept. |
| JsString.SubstituteLiteral | src/plugins/klbfw-dev.ts:218 | A character other than `$` is copied unchanged. |
| JsString.SubstituteLiteralPrefix | src/plugins/klbfw-dev.ts:218 | `$`-free text at the front of a template is copied unchanged, whatever follows it. |
| JsString.Replace | src/plugins/klbfw-dev.ts:218 | Without an occurrence the string is unchanged. Otherwise only the first occurrence is replaced, by the expanded template, and the text around it is kept. |
| RegistryIni.EntryOf | src/plugins/klbfw-dev.ts:34-41 | A trimmed line is skipped exactly when it is empty, starts with `;`, has no `=`, or starts with `=`. Otherwise its key is non-empty, holds no `=` and is trimmed, and its value is trimmed. |
| RegistryIni.ParseLine | src/plugins/klbfw-dev.ts:33-41 | One loop iteration applies the line's entry to the map: an assignment overwrites its key and nothing else changes. |
| RegistryIni.ParseIniFile | src/plugins/klbfw-dev.ts:32-42 | The loop over the lines yields the fold of the lines' entries, in file order. |
| RegistryIni.FoldKeys | src/plugins/klbfw-dev.ts:32-42 | A key is in the map exactly when some entry assigns it. |
| RegistryIni.FoldLastWins | src/plugins/klbfw-dev.ts:40 | A key gets the value of the last entry that assigns it. |
| RegistryIni.IniTextLookup | src/plugins/klbfw-dev.ts:32-42 | A key is in the parsed file exactly when some line of the file assigns it. |
| RegistryIni.IniTextLast | src/plugins/klbfw-dev.ts:40 | A key's value in the parsed file is the value on the last line that assigns it. |
| RegistryIni.LineEntryOfPadded | src/plugins/klbfw-dev.ts:33-40 | A line `k = v` with white space before, around and after the `=` yields exactly the entry `(k, v)`. |
| RegistryIni.LineEntryOfKeyValue | src/plugins/klbfw-dev.ts:36-40 | The line `k=v` yields the entry `(k, v)`. |
| RegistryIni.WriteThenParse | src/plugins/klbfw-dev.ts:32-42 | Writing well-formed entries as `k=v` lines and parsing the text gives the map of those entries, later keys overriding. |
| RegistryIni.EmptyFileIsEmpty | src/plugins/klbfw-dev.ts:30-44 | An empty file yields the empty map. |
| RegistryIni.EntriesMapKeys | src/plugins/klbfw-dev.ts:160-163 | A key is in the map built from decoded pairs exactly when some pair has that key. |
| RegistryIni.EntriesMapLast | src/plugins/klbfw-dev.ts:160-163 | A key's value is the value of the last pair with that key. |
| RegistryIni.Merge | src/plugins/klbfw-dev.ts:125 | The keys are those of either file. The development file's value wins on a shared key. A key only in the base file keeps its value. |
| UrlPrefix.Run | src/plugins/klbfw-dev.ts:74 | The result is the longest slash-free prefix of the input. |
| UrlPrefix.MatchSegment | src/plugins/klbfw-dev.ts:74-81 | The pattern matches exactly when the text starts with `/`, a lower-case letter, `/`, and a character other than `/`. The key is that letter. The value is non-empty and holds no `/`. |
| UrlPrefix.MatchedText | src/plugins/klbfw-dev.ts:77-90 | The matched segment text starts the remaining path and ends at its end or at a `/`. |
| UrlPrefix.After | src/plugins/klbfw-dev.ts:90 | What follows the consumed segment, or `/` when nothing follows. Each step shortens the path unless it is at most one character long, which is why the loop terminates. |
| UrlPrefix.ParsePrefix | src/plugins/klbfw-dev.ts:68-94 | The `while` loop yields the prefix, context and remaining path of the recursive scan of the path. |
| UrlPrefix.ScanAdvance | src/plugins/klbfw-dev.ts:88-90 | Consuming one accepted segment keeps the loop invariant that consumed segments plus the scan of the remainder make up the scan of the path. |
| UrlPrefix.Reconstruct | src/plugins/klbfw-dev.ts:88-90 | The path is the prefix followed by the remaining path, unless the whole path was consumed, in which case the remaining path is `/`. |
| UrlPrefix.PrefixCons | src/plugins/klbfw-dev.ts:89 | The prefix is the segments' `/key/value` texts concatenated in order. |
| UrlPrefix.ConsumedLocalesSupported | src/plugins/klbfw-dev.ts:84-86 | Every consumed `l` segment holds a supported language. |
| UrlPrefix.ContextFromSegments | src/plugins/klbfw-dev.ts:88 | Every context entry comes from a consumed segment with that key and value. |
| UrlPrefix.LocaleSupported | src/plugins/klbfw-dev.ts:84-88 | A locale in the resulting context is one of the supported languages. |
| UrlPrefix.ScanStops | src/plugins/klbfw-dev.ts:76-86 | The remaining path either does not match the pattern or starts with an unsupported locale. |
| UrlPrefix.Idempotent | src/plugins/klbfw-dev.ts:67-93 | Parsing the remaining path again yields an empty prefix, an empty context and the same remaining path. |
| UrlPrefix.SegmentAt | src/plugins/klbfw-dev.ts:74 | A `/key/value` segment followed by nothing or by a `/` is matched as exactly that segment. |
| UrlPrefix.UnsupportedLocaleStops | src/plugins/klbfw-dev.ts:84-86 | A path starting with a locale outside the list is not parsed at all. The prefix is empty, the context is empty and the remaining path is the whole path. |
| UrlPrefix.OtherKeysAccepted | src/plugins/klbfw-dev.ts:84-88 | A segment with any key other than `l` is consumed whatever its value. |
| UrlPrefix.SingleLocale | src/plugins/klbfw-dev.ts:67 | `/l/<lang><rest>` with a supported language gives prefix `/l/<lang>`, context `l: lang` and remaining path `<rest>`. |
| UrlPrefix.LocaleExample | src/plugins/klbfw-dev.ts:67 | `/l/en-US/about` with `en-US` supported gives prefix `/l/en-US`, context `l: en-US` and remaining path `/about`. |
| UrlPrefix.LocaleOnly | src/plugins/klbfw-dev.ts:90 | A path that is only a supported locale segment leaves the remaining path `/`. |
| UrlPrefix.LocaleThenCurrency | src/plugins/klbfw-dev.ts:73-91 | A locale segment then a currency segment are both consumed, in order, into the prefix and the context. |
| FwContext.Or | src/plugins/klbfw-dev.ts:167-168 | `a \|\| b` on strings: `a` when it is present and non-empty, else `b`. |
| FwContext.Get | src/plugins/klbfw-dev.ts:128 | A property read is present exactly when the key is in the map, and then it is the mapped value. |
| FwContext.LanguagesOf | src/plugins/klbfw-dev.ts:149 | The result is the lookup's languages when they are present, even if empty. Otherwise it is `["en-US"]`. |
| FwContext.DefaultLang | src/plugins/klbfw-dev.ts:150 | The default language exists exactly when the list is non-empty, and then it is the list's first element. |
| FwContext.RegistryEntry | src/plugins/klbfw-dev.ts:168-170 | A registry entry is found exactly when the registry exists and has the language's key, where a missing language reads the key `"undefined"`. The entry found is the registry's value under that key. |
| FwContext.Language | src/plugins/klbfw-dev.ts:167 | The language is the URL's locale when it is non-empty, else the default language. |
| FwContext.Currency | src/plugins/klbfw-dev.ts:168 | The currency is never empty, and the URL's currency segment wins when present. |
| FwContext.CurrencyFallback | src/plugins/klbfw-dev.ts:168 | Without a URL currency, the order is the registry's `Currency_Default` for the language, then the configuration's `Currency_List`, then `USD`. |
| FwContext.RegistrySlice | src/plugins/klbfw-dev.ts:170 | The registry slice is the language's entry, or else the default language's entry, or else the empty map. An empty entry is kept. |
| FwContext.RealmOf | src/plugins/klbfw-dev.ts:192 | The realm is `ExtraFw.Realm` when both are present, else the empty map. |
| FwContext.Branch | src/plugins/klbfw-dev.ts:186 | The branch is the lookup's branch when that is non-empty, else `master`. |
| FwContext.UrlId | src/plugins/klbfw-dev.ts:205 | The url id is `ExtraFw.urlid` when non-empty, else `Registry_Url__`. |
| FwContext.RequestUrl | src/plugins/klbfw-dev.ts:153 | The request URL is the original URL when that is non-empty; a missing or empty original URL becomes `/`. |
| FwContext.SplitUrlParts | src/plugins/klbfw-dev.ts:154 | The path part holds no `?`. There is a query exactly when the URL holds a `?`. The URL then starts with path, `?`, query, and the query ends at the second `?` or at the end of the URL. |
| FwContext.BuildFw | src/plugins/klbfw-dev.ts:172-207 | `Context` holds the resolved branch, currency and language. `Locale` and the locale cookie are that language. `Registry`, `Realm` and `urlid` are the resolved registry slice, realm and url id. Prefix and path come from the prefix parse. `URL.full` is the dev host followed by the request URL. `URL.query` is present exactly when the query is non-empty, and is then the query. The constant fields hold their fixed values. Token, expiry, uuid and `GET` are carried over. |
| FwContext.LanguageSupported | src/plugins/klbfw-dev.ts:149-167 | The page's locale is always one of the site's languages, and it is missing only when the language list is empty. |
| FwContext.PathReconstructs | src/plugins/klbfw-dev.ts:154-202 | `URL.path` is `prefix` followed by `path`, except when the whole path is a prefix, in which case `path` is `/`. |
| FwContext.IndentLines | src/plugins/klbfw-dev.ts:211 | Every line of the serialisation after the first gains four spaces; the first line is unchanged. |
| FwContext.JoinIndented | src/plugins/klbfw-dev.ts:211 | Joining with a newline and four spaces equals indenting all lines but the first and joining with a newline. |
| FwContext.FwScript | src/plugins/klbfw-dev.ts:209-215 | The script starts with the `<script>` opening and `var my = `, and ends with `return my;` and the closing tag. Between them is the serialisation with its lines indented. |
| FwContext.InjectScript | src/plugins/klbfw-dev.ts:218 | Without `</head>` the page is unchanged. Otherwise the script is inserted just before the first `</head>` and the rest of the page is kept. |
| FwContext.InjectScriptInverse | src/plugins/klbfw-dev.ts:218 | Removing the inserted script gives back the page, and the `</head>` follows the script. |
| FwContext.AsWrittenAgreesWithoutDollar | src/plugins/klbfw-dev.ts:218 | When the script holds no `$`, the page as the code builds it equals the corrected insertion. |
| FwContext.AsWrittenExpandsDollar | src/plugins/klbfw-dev.ts:218 | A script `$&` becomes a second `</head>` as written, while the corrected insertion keeps it literally. |
| FwContext.AsWrittenPastesHead | src/plugins/klbfw-dev.ts:218 | As written, a `` $` `` in the script is replaced by all of the page before the first `</head>`. |
| FwContext.AsWrittenPastesRest | src/plugins/klbfw-dev.ts:218 | As written, a `$'` in the script is replaced by all of the page after the first `</head>`. |
| KlbfwDev.LookupUrl | src/plugins/klbfw-dev.ts:136 | The lookup URL is the registry lookup endpoint followed by the realm. |
| KlbfwDev.ReadIniFile | src/plugins/klbfw-dev.ts:27-48 | An unreadable file gives the empty map; a readable one gives its parsed contents. |
| KlbfwDev.ReadConfigFiles | src/plugins/klbfw-dev.ts:123-125 | Both files are read, and the development file is merged over the base file. |
| KlbfwDev.CollectQuery | src/plugins/klbfw-dev.ts:157-164 | The loop over the decoded pairs yields their map, a later key overriding. |
| KlbfwDev.Plugin.constructor | src/plugins/klbfw-dev.ts:96-102 | Nothing is cached, nothing has been read or looked up, and the uuid, token and expiry are fixed. |
| KlbfwDev.Plugin.LoadConfigOnce | src/plugins/klbfw-dev.ts:122-126 | The files are read only when no configuration is cached, and then at most once in the instance's life. |
| KlbfwDev.Plugin.LookupOnce | src/plugins/klbfw-dev.ts:135-146 | A lookup is made only while no data is cached, and cached data is never replaced. A lookup that throws or answers without data leaves nothing cached. |
| KlbfwDev.Plugin.TransformIndexHtml | src/plugins/klbfw-dev.ts:117-224 | Without a realm the page is returned unchanged and no lookup is made. After a failed or empty lookup the page is unchanged. Otherwise the page carries the script for this request. The caches keep their invariant. |
| KlbfwDev.Plugin.RenderPage | src/plugins/klbfw-dev.ts:148-218 | The page computed by the loops equals the page the resolution functions specify for this request. |
| KlbfwDev.CachedSecondRequest | src/plugins/klbfw-dev.ts:98-146 | On a fresh instance, a second request gets the same page as the first, whatever the files and the lookup would give the second time. |
| ServiceWorker.Decide | public/service-worker.js:16-48 | A request is re-issued exactly when a non-empty version is held, its path does not start with `/_`, it is not a document request, and it is same-origin. The copy keeps the URL, method, credentials and redirect mode, uses `cors` mode, and adds `x-version-hint` with the version to the same other headers. |
| ServiceWorker.Worker.constructor | public/service-worker.js:4 | The worker starts without a version. |
| ServiceWorker.Worker.OnMessage | public/service-worker.js:7-13 | The new version is the one the message rules give from the old version and the message. |
| ServiceWorker.Worker.OnFetch | public/service-worker.js:16-48 | The listener's decision is `Decide` for the held version and the worker's origin. |
| ServiceWorker.SetReplaces | public/service-worker.js:8-9 | `SET_VERSION` makes its version the current one, whatever was held before. |
| ServiceWorker.ClearedVersionPassesEverything | public/service-worker.js:10-20 | After `RESET_VERSION`, or `SET_VERSION` without a usable version, no request is modified. |
| ServiceWorker.OtherMessagesIgnored | public/service-worker.js:7-13 | Falsy data and messages of any other type leave the version unchanged. |
| ServiceWorker.SetVersionTagsAssets | public/service-worker.js:7-48 | After `SET_VERSION v`, exactly the same-origin, non-document requests outside `/_` are re-issued, each carrying `v`. |
| ServiceWorker.ApiPathsPassThrough | public/service-worker.js:22-26 | A request whose path starts with `/_` is never modified. |

## Left out

- `generateUuid` and `generateCsrfToken` use `Math.random`, and `tokenExp` uses the clock. The three values are parameters of the plugin's constructor.
- `readFileSync` and `resolve`: the two files are given by their contents, `None` when unreadable.
- `fetch` and `response.json()`: the lookup is a function parameter that returns the outcome. `Failed` covers both a network error and invalid JSON.
- `JSON.stringify` and `URLSearchParams` are function-typed parameters. Their own behaviour (escaping, key order, percent-decoding) is not modelled.
- `KlbfwDev.Plugin.TransformIndexHtml` only models the exception path of the lookup. A throw later in the hook, for example from lookup data of the wrong JSON types, cannot happen with the typed `LookupData` of the model.
- `ExtraFw.Realm` is modelled as a map of strings. The code passes through any JSON object.
- RegistryIni.Apply stores every key, `__proto__` included. The code assigns to a plain object, where a string assigned to `__proto__` is ignored, so a registry line `__proto__=x` adds no key there. `RegistryIni.FoldKeys` and `RegistryIni.IniTextLookup` therefore count that key as present where the code would not.
- KlbfwDev.CollectQuery stores every decoded key, `__proto__` included. In the code, `GET` is a plain object, so a query `?__proto__=x` adds no key there.
- KlbfwDev.Plugin.TransformIndexHtml promises the page with the script inserted literally (`FwContext.InjectScript`). The code's `replace` call expands `$` patterns in the script, so the two pages differ when the script holds `$$`, `$&`, `` $` `` or `$'`; see Findings. `FwContext.AsWrittenAgreesWithoutDollar` shows they agree for any script without `$`.
- KlbfwDev.Plugin.RenderPage and `KlbfwDev.Page` use the same literal insertion, with the same difference from the code when the script holds a `$` pattern.
- Console logging, the `configureServer` middleware that records `originalUrl` (the URL is a parameter), and the plugin's `name` and `apply` fields.
- Overlapping first requests: the configuration is cached before the hook's first `await`, so the files are read once even then. The lookup comes after that `await`, so two overlapping requests can both find `cachedApiData` empty; each then makes a lookup and the last answer to arrive is the one cached. The model runs one request at a time.
- `version-injector.ts` and `vite.config.ts` are not part of this model.
- The service worker's `install` and `activate` listeners, `respondWith`, and the fallback `fetch` of the original request when the modified one fails.
- `new URL(...)` parsing is not modelled: a request carries its parsed origin and path.
- `ServiceWorker.Decide`: only the request fields the worker reads or sets are modelled. Body, referrer, cache mode and integrity are not.
- `ServiceWorker.Decide`: header names are the lower-case names `Headers` stores. Header-name validation is not modelled.
- ServiceWorker.Decide forwards the raw version in `X-Version-Hint`. `headers.set` strips leading and trailing HTTP white space from the value. It throws for a NUL, CR or LF inside the value, or for a character above U+00FF, and the request then goes out unmodified. Neither the normalisation nor the throw is modelled.
- `ServiceWorker.Worker.OnMessage` models a version that is a string or missing. A non-string version, such as a number, is converted to a string by `headers.set`, and that conversion is not modelled.

## Findings

| source | as written | input that shows it | evidently intended | confidence | as-written member | corrected member |
|---|---|---|---|---|---|---|
| src/plugins/klbfw-dev.ts:218 | `html.replace('</head>', script + '</head>')` treats `$&`, `$'`, `` $` `` and `$$` in the script as substitution patterns. The script embeds the request URL and query values. | A request for `` /?q=$` ``: the query reaches `URL.full` and `URL.query` unescaped, and the `` $` `` there is replaced by all of the page before `</head>`. That text holds Vite's client `<script>…</script>`, and its `</script>` ends the `FW` script early. A `$'` in the path pastes the rest of the page the same way, with its `</script>` tags. A milder case, `/?a=$&b=1`, only makes `URL.full` and `URL.query` read `?a=</head>b=1`. | Insert the script text literally before the first `</head>`. | not executed | FwContext.AsWrittenExpandsDollar | FwContext.InjectScriptInverse |

The rest of the model builds pages with the corrected `FwContext.InjectScript`. `FwContext.InjectAsWritten` is the code as written. `FwContext.AsWrittenPastesHead` and `FwContext.AsWrittenPastesRest` state the pasting in general. `FwContext.AsWrittenAgreesWithoutDollar` shows that the two insertions differ only when the script holds a `$`.
