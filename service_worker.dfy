/**
 * The static service worker: a version set by the page through a message,
 * and the fetch hook that re-issues same-origin asset requests with an
 * `X-Version-Hint` header carrying that version.
 */
module ServiceWorker {
  import opened Optional
  import opened JsString

  /**
   * The `data` of a message event when it is truthy: its `type` and its
   * `version`, either of which may be missing (or not a string).
   */
  datatype MessageData = MessageData(kind: Option<string>, version: Option<string>)

  const SetVersion := "SET_VERSION"
  const ResetVersion := "RESET_VERSION"

  /** The version the worker holds after a message whose data is `data` (`None` when the data is falsy). */
  function NextVersion(current: Option<string>, data: Option<MessageData>): Option<string>
  {
    if data.Some? && data.value.kind == Some(SetVersion) then data.value.version
    else if data.Some? && data.value.kind == Some(ResetVersion) then None
    else current
  }

  /** A request URL as `new URL(...)` parses it: the text, its origin and its path. */
  datatype Url = Url(href: string, origin: string, pathname: string)

  /**
   * The parts of a `Request` the worker reads or sets (`verb` is its `method`). Header names are the
   * lower-case names a `Headers` object stores.
   */
  datatype Request = Request(
    url: Url,
    verb: string,
    headers: map<string, string>,
    mode: string,
    credentials: string,
    redirect: string,
    destination: string)

  /** The fetch hook's choice: let the browser handle the request, or answer it with this request instead. */
  datatype FetchDecision = PassThrough | Forward(request: Request)

  /** The header `headers.set('X-Version-Hint', …)` writes, as `Headers` stores it. */
  const VersionHint := "x-version-hint"

  /** Paths of the API, which the worker leaves alone. */
  const ApiPrefix := "/_"

  /**
   * The fetch hook for `request` when the worker holds `version` and runs
   * at `selfOrigin`: requests are re-issued only when a version is set and
   * the request is a same-origin, non-document request outside `/_`; the
   * copy keeps the URL, method, headers, credentials and redirect mode,
   * switches to `cors` mode and carries the version in `X-Version-Hint`.
   */
  function Decide(version: Option<string>, selfOrigin: string, request: Request): (r: FetchDecision)
    ensures r.Forward? <==>
      && Truthy(version)
      && !StartsWith(request.url.pathname, ApiPrefix)
      && request.destination != "document"
      && request.url.origin == selfOrigin
    ensures r.Forward? ==>
      && r.request.url == request.url
      && r.request.verb == request.verb
      && r.request.mode == "cors"
      && r.request.credentials == request.credentials
      && r.request.redirect == request.redirect
      && r.request.destination == ""
    ensures r.Forward? ==>
      && r.request.headers.Keys == request.headers.Keys + {VersionHint}
      && r.request.headers[VersionHint] == version.value
      && (forall h :: h in request.headers && h != VersionHint ==> r.request.headers[h] == request.headers[h])
  {
    if !Truthy(version) then PassThrough
    else if StartsWith(request.url.pathname, ApiPrefix) then PassThrough
    else if request.destination == "document" then PassThrough
    else if request.url.origin != selfOrigin then PassThrough
    else
      var copy := Request(request.url, request.verb, request.headers, "cors",
                          request.credentials, request.redirect, "");
      Forward(copy.(headers := copy.headers[VersionHint := version.value]))
  }

  /** The worker's global state: `currentVersion`, and the origin it serves. */
  class Worker {
    var currentVersion: Option<string>
    const origin: string

    /** A freshly started worker holds no version. */
    constructor(origin: string)
      ensures currentVersion == None && this.origin == origin
    {
      this.origin := origin;
      currentVersion := None;
    }

    /** The `message` listener. */
    method OnMessage(data: Option<MessageData>)
      modifies this`currentVersion
      ensures currentVersion == NextVersion(old(currentVersion), data)
    {
      if data.Some? && data.value.kind == Some(SetVersion) {
        currentVersion := data.value.version;
      } else if data.Some? && data.value.kind == Some(ResetVersion) {
        currentVersion := None;
      }
    }

    /** The `fetch` listener, which changes nothing. */
    method OnFetch(request: Request) returns (d: FetchDecision)
      ensures d == Decide(currentVersion, origin, request)
    {
      if currentVersion.None? || currentVersion.value == [] {
        return PassThrough;
      }
      if StartsWith(request.url.pathname, ApiPrefix) {
        return PassThrough;
      }
      if request.destination == "document" {
        return PassThrough;
      }
      if request.url.origin != origin {
        return PassThrough;
      }
      var headers := request.headers[VersionHint := currentVersion.value];
      d := Forward(Request(request.url, request.verb, headers, "cors",
                           request.credentials, request.redirect, ""));
    }
  }

  /** A `SET_VERSION` message makes its version the current one, whatever was held before. */
  lemma SetReplaces(current: Option<string>, version: Option<string>)
    ensures NextVersion(current, Some(MessageData(Some(SetVersion), version))) == version
  {
  }

  /**
   * After a `RESET_VERSION` message, and after a `SET_VERSION` message
   * without a usable version, no request is re-issued.
   */
  lemma ClearedVersionPassesEverything(current: Option<string>, data: MessageData, selfOrigin: string, request: Request)
    requires data.kind == Some(ResetVersion) || (data.kind == Some(SetVersion) && !Truthy(data.version))
    ensures Decide(NextVersion(current, Some(data)), selfOrigin, request) == PassThrough
  {
  }

  /** Falsy data and messages of any other type leave the version as it was. */
  lemma OtherMessagesIgnored(current: Option<string>, data: Option<MessageData>)
    requires data.None? || (data.value.kind != Some(SetVersion) && data.value.kind != Some(ResetVersion))
    ensures NextVersion(current, data) == current
  {
  }

  /**
   * After `SET_VERSION` with a non-empty version `v`, a same-origin asset
   * request outside `/_` is re-issued with `X-Version-Hint: v`, and a
   * document request, an API request or a request to another origin is not.
   */
  lemma SetVersionTagsAssets(current: Option<string>, v: string, selfOrigin: string, request: Request)
    requires v != []
    ensures var d := Decide(NextVersion(current, Some(MessageData(Some(SetVersion), Some(v)))), selfOrigin, request);
      && (d.Forward? <==>
            !StartsWith(request.url.pathname, ApiPrefix) && request.destination != "document" && request.url.origin == selfOrigin)
      && (d.Forward? ==> d.request.headers[VersionHint] == v)
  {
  }

  /** Any path that begins with `/_` is left alone, e.g. `/_special/rest/...`. */
  lemma ApiPathsPassThrough(version: Option<string>, selfOrigin: string, request: Request, rest: string)
    requires request.url.pathname == ApiPrefix + rest
    ensures Decide(version, selfOrigin, request) == PassThrough
  {
    assert request.url.pathname[..|ApiPrefix|] == ApiPrefix;
  }
}
