/** The browser side of the HTTP boundary (frontend/services/sparqlService.ts): each
    function builds a request URL, and maps the reply to a value without ever passing a
    failure on. The base URL and encodeURIComponent are parameters; `fetch` is replaced
    by the reply it produced. */
module Client {
  import opened Types

  /** What `fetch` and `response.json()` gave: no response at all, or a status with a
      body that parsed (None when the body did not parse). */
  datatype Reply<+T> = NetworkError | Reply(status: int, body: Option<T>)

  /** response.ok */
  predicate Ok(status: int)
  {
    200 <= status <= 299
  }

  /** A request the function made (None when it made none) and the value it resolved to. */
  datatype Fetched<+T> = Fetched(url: Option<string>, value: T)

  /** String.prototype.length: characters outside the Basic Multilingual Plane count
      twice, as two UTF-16 code units. */
  function Utf16Length(s: string): (n: nat)
    ensures |s| <= n <= 2 * |s|
    ensures (forall k :: 0 <= k < |s| ==> s[k] <= '\U{FFFF}') ==> n == |s|
  {
    if s == [] then 0
    else Utf16Length(s[..|s| - 1]) + (if s[|s| - 1] <= '\U{FFFF}' then 1 else 2)
  }

  /** The reply carries a usable body: ok status and parsed JSON. */
  predicate Delivered<T>(reply: Reply<T>)
  {
    reply.Reply? && Ok(reply.status) && reply.body.Some?
  }

  /** searchDistros: terms shorter than two code units give [] with no request. */
  function SearchDistros(base: string, encode: string -> string, term: string, reply: Reply<seq<SearchResult>>)
    : (r: Fetched<seq<SearchResult>>)
    ensures r.url.None? <==> Utf16Length(term) < 2
    ensures r.url.Some? ==> r.url.value == base + "/search?term=" + encode(term)
    ensures r.url.Some? && Delivered(reply) ==> r.value == reply.body.value
    ensures !(r.url.Some? && Delivered(reply)) ==> r.value == []
  {
    if term == "" || Utf16Length(term) < 2 then Fetched(None, [])
    else
      var url := base + "/search?term=" + encode(term);
      match reply
      case NetworkError => Fetched(Some(url), [])
      case Reply(status, body) =>
        if !Ok(status) then Fetched(Some(url), [])
        else
          match body
          case None => Fetched(Some(url), [])
          case Some(results) => Fetched(Some(url), results)
  }

  /** getDistroDetails: 404 is read as "no such distribution" before the ok check; any
      other failure is also null. */
  function GetDistroDetails(base: string, encode: string -> string, uri: string, reply: Reply<DistroDetails>)
    : (r: Fetched<Option<DistroDetails>>)
    ensures r.url == Some(base + "/distro-details?uri=" + encode(uri))
    ensures r.value.Some? <==> Delivered(reply)
    ensures r.value.Some? ==> r.value.value == reply.body.value
    ensures reply.Reply? && reply.status == 404 ==> r.value.None?
  {
    var url := base + "/distro-details?uri=" + encode(uri);
    match reply
    case NetworkError => Fetched(Some(url), None)
    case Reply(status, body) =>
      if status == 404 then Fetched(Some(url), None)
      else if !Ok(status) then Fetched(Some(url), None)
      else Fetched(Some(url), body)
  }

  /** The graph URL: the centerUri parameter is appended only for a truthy center. */
  function GraphUrl(base: string, encode: string -> string, center: Option<string>): (url: string)
    ensures var path := base + "/genealogy-graph";
            && |path| <= |url| && url[..|path|] == path
            && (Truthy(center) ==> url[|path|..] == "?centerUri=" + encode(center.value))
            && (!Truthy(center) ==> url == path)
  {
    var url := base + "/genealogy-graph";
    if Truthy(center) then url + "?centerUri=" + encode(center.value) else url
  }

  /** getGenealogyGraph: any failure gives the empty graph. */
  function GetGenealogyGraph(base: string, encode: string -> string, center: Option<string>, reply: Reply<GraphData>)
    : (r: Fetched<GraphData>)
    ensures r.url == Some(GraphUrl(base, encode, center))
    ensures Delivered(reply) ==> r.value == reply.body.value
    ensures !Delivered(reply) ==> r.value == EmptyGraph
  {
    var url := GraphUrl(base, encode, center);
    match reply
    case NetworkError => Fetched(Some(url), EmptyGraph)
    case Reply(status, body) =>
      if !Ok(status) then Fetched(Some(url), EmptyGraph)
      else
        match body
        case None => Fetched(Some(url), EmptyGraph)
        case Some(g) => Fetched(Some(url), g)
  }
}
