/** The reference definition of the pipeline: what one request does to a fresh response,
    stage by stage, as values. The methods of module Server are proved to produce exactly
    this, and the lemmas of module Properties are stated about it. */
module Decisions {
  import opened Wrappers
  import opened Platform
  import opened Patterns
  import opened Responses

  /** Media types that get the caching headers and the conditional-GET check. */
  const CacheTypes: seq<string> := ["text/css", "application/javascript", "image/jpeg", "image/png"]
  /** Media types that get the referrer guard and the range stage. */
  const RangeTypes: seq<string> := ["image/jpeg", "image/png"]
  /** The only referrer host that may embed range-type media. */
  const HostDomain := "localhost:8080"

  const CacheControl := "Cache-Control"
  const Expires := "Expires"
  const LastModified := "Last-Modified"
  const ETag := "ETag"
  /** Sic: the server spells the header without the final `s`. */
  const AcceptRange := "Accept-Range"
  const ContentType := "Content-Type"
  const ContentEncoding := "Content-Encoding"

  const NotFoundText := "not found"

  /** Why a response is left unfinished: the rejections of `sendFile`'s promise, which
      nobody awaits. `NullRangeMatch`: `result[1]` read on the `null` of a failed match.
      `ReadStreamNotCallable`: the uncompressed branch calls the stream as a function. */
  datatype Fault = NullRangeMatch | ReadStreamNotCallable

  datatype Outcome = Settled | Unhandled(fault: Fault)

  /** The response a request leaves behind, and whether its handler settled. */
  datatype Handled = Handled(reply: Reply, outcome: Outcome)

  /** A file's `Last-Modified` text and its entity tag. */
  datatype Validators = Validators(lastModified: string, etag: string)

  /** `String(n)` for a non-negative integer: decimal digits that denote `n`, with no
      leading zero. */
  function DecimalString(n: nat): (s: string)
    ensures |s| > 0 && AllDigits(s)
    ensures DigitsValue(s) == n
    ensures |s| > 1 ==> s[0] != '0'
  {
    var digit := ['0' + (n % 10) as char];
    if n < 10 then digit
    else
      var prefix := DecimalString(n / 10);
      assert (prefix + digit)[..|prefix + digit| - 1] == prefix;
      prefix + digit
  }

  /** The validators depend on the change time and the size only. */
  function ValidatorsOf(env: Env, stat: Stat): Validators {
    var lastModified := env.httpDate(stat.ctime);
    Validators(lastModified, env.sha1Hex(lastModified + DecimalString(stat.size)))
  }

  /** The conditional GET succeeds: a non-empty `If-Modified-Since` equal to the
      `Last-Modified` text, or a non-empty `If-None-Match` equal to the entity tag. */
  predicate NotModified(req: HttpRequest, v: Validators) {
    var ifModifiedSince := Header(req, "if-modified-since");
    var ifNoneMatch := Header(req, "if-none-match");
    || (Truthy(ifModifiedSince) && ifModifiedSince.value == v.lastModified)
    || (Truthy(ifNoneMatch) && ifNoneMatch.value == v.etag)
  }

  /** The two headers of forced caching, set before the conditional check: private
      caches may keep the response 60 seconds, until `now` plus 60 000 ms. */
  function WithExpiry(env: Env, headers: map<string, string>): map<string, string> {
    headers[CacheControl := "private,max-age=60"][Expires := env.httpDate(env.now + 60 * 1000)]
  }

  /** The validator headers, set only when the conditional GET fails. */
  function WithValidators(v: Validators, headers: map<string, string>): map<string, string> {
    headers[LastModified := v.lastModified][ETag := v.etag]
  }

  /** The coding `gzip()` picks from `Accept-Encoding`: gzip as a whole word wins, then
      deflate as a whole word; an absent header matches neither. */
  function SelectCoding(acceptEncoding: Option<string>): (c: Option<Coding>)
    ensures c == Some(Gzip) <==> acceptEncoding.Some? && HasWord(acceptEncoding.value, "gzip")
    ensures c == Some(Deflate) <==>
      acceptEncoding.Some? && !HasWord(acceptEncoding.value, "gzip") && HasWord(acceptEncoding.value, "deflate")
    ensures c.None? <==>
      acceptEncoding.None? || (!HasWord(acceptEncoding.value, "gzip") && !HasWord(acceptEncoding.value, "deflate"))
  {
    match acceptEncoding
    case None => None
    case Some(s) =>
      if ContainsWord(s, "gzip") then Some(Gzip)
      else if ContainsWord(s, "deflate") then Some(Deflate)
      else None
  }

  function AcceptEncoding(req: HttpRequest): Option<string> {
    Header(req, "accept-encoding")
  }

  /** `req.headers['referer'] || req.headers['refer']`. */
  function Referrer(req: HttpRequest): Option<string> {
    var referer := Header(req, "referer");
    if Truthy(referer) then referer else Header(req, "refer")
  }

  function PlaceholderPath(env: Env): string {
    env.join([env.cwd, "imgs/load.png"])
  }

  /** The hotlink guard: a stream of the placeholder image exactly when the first
      non-empty of `referer` and `refer` names a host other than `HostDomain`. */
  function NotSteal(env: Env, req: HttpRequest): (substitute: Option<Source>)
    ensures substitute.Some? ==> substitute.value == WholeFile(PlaceholderPath(env))
    ensures substitute.Some? <==>
      || (Truthy(Header(req, "referer")) && env.hostOf(req.headers["referer"]) != Some(HostDomain))
      || (!Truthy(Header(req, "referer")) && Truthy(Header(req, "refer"))
          && env.hostOf(req.headers["refer"]) != Some(HostDomain))
  {
    var refer := Referrer(req);
    if Truthy(refer) && env.hostOf(refer.value) != Some(HostDomain) then
      Some(WholeFile(PlaceholderPath(env)))
    else None
  }

  /** A non-empty `Range` header that `bytes=(\d*)-(\d*)` does not match. */
  predicate RangeUnmatched(req: HttpRequest) {
    var range := Header(req, "range");
    Truthy(range) && MatchRange(range.value).None?
  }

  /** The listing entries, in `readdir` order, each URL the request path joined with the name. */
  function Listing(env: Env, pathname: string, names: seq<string>): (files: seq<Entry>)
    ensures |files| == |names|
    ensures forall k :: 0 <= k < |names| ==> files[k] == Entry(names[k], env.join([pathname, names[k]]))
  {
    if names == [] then []
    else [Entry(names[0], env.join([pathname, names[0]]))] + Listing(env, pathname, names[1..])
  }

  function IndexPath(env: Env, dir: string): string {
    env.join([dir, "/", "index.html"])
  }

  /** `sendError(req, res, 404)`. */
  function NotFound(r: Reply): Reply {
    r.(status := 404, body := Ended(NotFoundText))
  }

  /** What serving the file at `path`, with metadata `stat`, does to the reply `r`:
      conditional GET for cacheable types, then the hotlink guard and the range stage for
      range types, then the media type, then the coding. */
  function ServeFile(env: Env, req: HttpRequest, path: string, stat: Stat, r: Reply): Handled {
    var mediaType := env.mimeType(path);
    var cacheable := mediaType in CacheTypes;
    var rangeable := mediaType in RangeTypes;
    var v := ValidatorsOf(env, stat);
    if cacheable && NotModified(req, v) then
      Handled(Reply(304, WithExpiry(env, r.headers), Ended("")), Settled)
    else
      var cached := if cacheable then WithValidators(v, WithExpiry(env, r.headers)) else r.headers;
      var substitute := if rangeable then NotSteal(env, req) else None;
      var ranged := if rangeable && substitute.None? then cached[AcceptRange := "bytes"] else cached;
      if rangeable && substitute.None? && RangeUnmatched(req) then
        Handled(r.(headers := ranged), Unhandled(NullRangeMatch))
      else
        var source :=
          if substitute.Some? then substitute.value
          else if rangeable then Slice(path, Offset(0), Offset(stat.size))
          else WholeFile(path);
        var typed := ranged[ContentType := if substitute.Some? then "image/png" else mediaType];
        match SelectCoding(AcceptEncoding(req))
        case Some(c) =>
          Handled(r.(headers := typed[ContentEncoding := CodingName(c)], body := Piped(source, c)), Settled)
        case None =>
          Handled(r.(headers := typed), Unhandled(ReadStreamNotCallable))
  }

  /** The listing of a directory without an index file. With a coding chosen and an empty
      page, `gzip()` hands back a zlib stream, `res.end` rejects it, and the error handler
      answers 404 over the headers already set. */
  function ServeListing(env: Env, req: HttpRequest, names: seq<string>): Reply {
    var html := env.render(req.pathname, Listing(env, req.pathname, names));
    var typed := map[ContentType := "text/html"];
    match SelectCoding(AcceptEncoding(req))
    case None => Reply(200, typed, Ended(html))
    case Some(c) =>
      var encoded := typed[ContentEncoding := CodingName(c)];
      if html != "" then Reply(200, encoded, Ended(env.compress(c, html)))
      else NotFound(Reply(200, encoded, Pending))
  }

  /** The whole pipeline on a fresh response. */
  function Serve(env: Env, fs: FileSystem, req: HttpRequest): Handled {
    var filepath := env.join([env.root, req.pathname]);
    if filepath !in fs.stats then Handled(NotFound(Unsent), Settled)
    else
      var stat := fs.stats[filepath];
      if !stat.isDirectory then ServeFile(env, req, filepath, stat, Unsent)
      else if IndexPath(env, filepath) in fs.stats then ServeFile(env, req, IndexPath(env, filepath), stat, Unsent)
      else if filepath !in fs.entries then Handled(NotFound(Unsent), Settled)
      else Handled(ServeListing(env, req, fs.entries[filepath]), Settled)
  }
}
