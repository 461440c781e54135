# seventh-static: the request pipeline, modelled in Dafny

`seventh-static` is a small Node static-file server. Its `Server` class in `src/app.js`
turns a request path, the filesystem under the configured root and the request headers
into a status code, a header map and a body. This project models that pipeline:

- **dispatch** (`request`): a path that does not stat gets 404. A directory whose
  `index.html` stats is served as that file, but with the directory's metadata. Any other
  directory gets a listing. Everything else is served as a file.
- **conditional GET** (`toCache`): only for `text/css`, `application/javascript`,
  `image/jpeg` and `image/png`. The text comparisons are exact and the dates are not compared.
- **content coding** (`gzip`): gzip as a whole word, then deflate as a whole word.
- **hotlink guard** (`notSteal`): only for JPEG and PNG. A foreign `referer` (or `refer`)
  host gets the placeholder image.
- **ranges** (`range`): only for JPEG and PNG that were not substituted.
- **error answer** (`sendError`).

Module layout:

- `platform.dfy`: what the pipeline receives.
  - The filesystem is a map from path to stat (kind, change time, size), plus the
    `readdir` results.
  - The request is a path and a header map.
  - `Env` holds the configuration and the library calls the code makes: `path.join`,
    `mime.getType`, the host of `Url.parse`, date formatting, SHA-1, the listing
    template, zlib compression and the clock.
  - These are function-valued fields. The model says nothing about them beyond determinism.
- `patterns.dfy`: the regular expressions `\bgzip\b`, `\bdeflate\b` and
  `bytes=(\d*)-(\d*)`. Each is a scanning function proved against a declarative
  description of where the pattern matches.
- `responses.dfy`: the response as a class whose status, headers and body the methods
  update in place.
- `decisions.dfy`: the reference definition `Serve`. It gives, as values, what one request
  does to a fresh response. `ServeFile` and `ServeListing` are its two branches.
- `server.dfy`: the handler as the code runs it, step by step on a `Response`, with early
  returns. `Request` is proved to leave exactly `Serve`'s state. The other methods are
  proved against their stage.
- `properties.dfy`: the properties, as lemmas about `Serve` and `ServeFile`.

A handler's promise that nobody awaits and that rejects is modelled as the outcome
`Unhandled`. The response is then left wherever the handler stopped.

Behaviour of the code that the model keeps, although HTTP or evident intent would differ:

- A 304 still carries `Cache-Control` and `Expires`, because they are set before the check.
- The range header is spelled `Accept-Range`.
- The requested range bounds are never used. The guards `isNaN(capture)` are inverted,
  and a `\d*` capture is never NaN.
- A non-empty `Range` that does not match the pattern throws. It is not treated as "no range".
- No status is ever 206.
- The index file only has to stat; it may even be a directory. It is served with the
  directory's stat, so its validators and its range come from the directory.
- There is no check against `..` traversal.
- Without a content coding, the file branch calls the read stream as a function. That
  throws, so the response is never ended.
- Failures inside `sendFile` are not turned into 404, because its promise is not awaited.
- In a listing, a chosen coding together with an empty rendered page makes `gzip` return
  a zlib stream. `res.end` rejects it, and the error handler then answers 404 with the
  listing's headers already set.

## Model

| member | source | states |
|---|---|---|
| `Patterns.FindWordFrom` | src/app.js:99-102 | the scan finds `\b`w`\b` at or after a position exactly when some match starts there |
| `Patterns.ContainsWord` | src/app.js:102-105 | `RegExp.test` for a whole word is true exactly when the word occurs bounded by non-word characters or the string's ends |
| `Patterns.DigitRunEnd` | src/app.js:155 | the greedy `\d*` run ends at the first non-digit; everything before it is a digit |
| `Patterns.MatchRangeFrom` | src/app.js:155 | the search succeeds exactly when `bytes=(\d*)-(\d*)` matches at or after the position; it returns the two groups of the leftmost such match, both digit strings |
| `Patterns.MatchRange` | src/app.js:155 | `range.match(...)` is non-null exactly when the pattern matches somewhere; it holds the groups of the leftmost match, both digit strings |
| `Patterns.RangeAtIsMatch` | src/app.js:155 | the scanner's match test agrees with the plain description: `bytes=`, then any all-digit stretch, then `-` |
| `Decisions.DecimalString` | src/app.js:181 | the size appended to the ETag input is a non-empty digit string with no leading zero that denotes the size |
| `Decisions.SelectCoding` | src/app.js:97-108 | gzip exactly when `gzip` is a whole word; deflate exactly when `deflate` is and `gzip` is not; none otherwise, including when the header is absent |
| `Decisions.NotSteal` | src/app.js:139-149 | the placeholder stream exactly when the first non-empty of `referer`/`refer` has a host other than `localhost:8080` |
| `Decisions.Listing` | src/app.js:76-80 | one entry per `readdir` name, in order, each with name and URL `join(pathname, name)` |
| `Server.Request` | src/app.js:61-96 | the response and outcome are exactly those of `Serve` on a fresh response |
| `Server.SendFile` | src/app.js:114-138 | the response and outcome are exactly those of `ServeFile` from the response's prior state |
| `Server.ToCache` | src/app.js:164-197 | returns false exactly when the conditional GET succeeds; then the status is 304 with an empty body; `Cache-Control` and `Expires` are set on both paths, the validators only on the other |
| `Server.Gzip` | src/app.js:97-113 | `Content-Encoding` is set exactly when a coding is selected; it returns compressed bytes for non-empty data and a transform stream otherwise |
| `Server.Range` | src/app.js:150-163 | sets `Accept-Range: bytes`; throws exactly when a non-empty `Range` does not match; otherwise opens the file from 0 to its size |
| `Server.SendError` | src/app.js:198-205 | flag 404 gives status 404 with body `not found`; any other flag leaves the response untouched |
| `Properties.GzipPreferred` | src/app.js:102-107 | with both words present, gzip is chosen |
| `Properties.NotAWholeWord` | src/app.js:99-100 | `x-gzip` selects gzip; `gzipped` selects nothing |
| `Properties.FileCoding` | src/app.js:131-137 | past the cache and range stages, `Content-Encoding` names the selected coding and the stream is piped through it; with no coding there is no such header and the handler throws with the body pending |
| `Properties.MissingIsNotFound` | src/app.js:64-65 | a path that does not stat gets 404, body `not found`, no headers |
| `Properties.UnreadableDirectoryIsNotFound` | src/app.js:76 | a directory without index whose `readdir` fails gets the same 404 |
| `Properties.FileDispatch` | src/app.js:89-90 | a non-directory is served as a file with its own stat |
| `Properties.IndexServedWithDirectoryStat` | src/app.js:66-73 | a directory with an index that stats is served as the index path with the directory's stat |
| `Properties.DirectoryListing` | src/app.js:76-88 | a listing is `text/html`; it has no caching or range header; its page is compressed by the selection rule; it is 404 when a coding meets an empty page |
| `Properties.SizeTextInjective` | src/app.js:181 | different sizes give different size texts in the ETag input |
| `Properties.ValidatorsDeterministic` | src/app.js:178-181 | equal change time and size give equal validators (`Last-Modified` is the GMT text of the change time, the ETag SHA-1 of that text followed by the size) |
| `Properties.ConditionalGet` | src/app.js:116-119 | for a cacheable type, 304 exactly when the conditional GET succeeds; a 304 has an empty body and only `Cache-Control` and `Expires` |
| `Properties.EntityTagMatchIsNotModified` | src/app.js:188 | a non-empty matching `If-None-Match` gives 304 whatever `If-Modified-Since` says |
| `Properties.CacheHeadersOnFullResponse` | src/app.js:166-172 | a cacheable type not answered 304 has all four caching headers with their values |
| `Properties.NoCacheHeadersOtherwise` | src/app.js:116 | other types never get any of the four caching headers |
| `Properties.HotlinkSubstitution` | src/app.js:122-131 | a substituted response is `image/png`, has no `Accept-Range`, and pipes only the placeholder |
| `Properties.NoSubstitutionWithoutForeignReferrer` | src/app.js:141-145 | with neither `referer` nor `refer` non-empty, or with a `referer` whose host is `localhost:8080`, nothing is substituted |
| `Properties.GuardOnlyForRangeTypes` | src/app.js:122-131 | a type outside the range types keeps its own media type and file and has no `Accept-Range`, whatever the referrer |
| `Properties.RangeStage` | src/app.js:127-128 | a non-substituted range type has `Accept-Range: bytes`; an unmatched `Range` throws before `Content-Type`; otherwise the stream spans 0 to the size |
| `Properties.RequestedBoundsIgnored` | src/app.js:155-157 | `Range: bytes=10-20` still streams from 0 to the size |
| `Properties.MalformedRangeThrows` | src/app.js:155-156 | `Range: items=1-2` makes the handler throw |
| `Properties.NotModifiedHasEmptyBody` | src/app.js:184-190 | every 304 the pipeline produces has an empty body |
| `Properties.FileStageFailuresStayUnanswered` | src/app.js:72 | when the handler throws, the status stays 200 and the response is never ended |

## Left out

- Start-up, the listening socket and config merging (src/app.js:43-60). These are I/O and
  bootstrap. `root` and `cwd` are fields of `Env`.
- `Url.parse(req.url).pathname` (src/app.js:62) is not modelled. The request carries the
  path already parsed.
- Loading the Handlebars template (src/app.js:21-25). Rendering (src/app.js:81-84) is the
  opaque `Env.render` of title and entries.
- zlib (src/app.js:15-16, 103, 106, 134): `Env.compress` is opaque, and a transform stream
  is its coding. No decompression round-trip is stated.
- SHA-1, `Date#toGMTString`/`toUTCString` and `Date.now()` (src/app.js:172, 178, 181) are
  the opaque `Env.sha1Hex`, `Env.httpDate` and the value `Env.now`.
- `mime.getType` is a total table `Env.mimeType`. Its `null` for an unknown extension, and
  what Node does with a `null` header value, are not modelled.
- `Url.parse(...).host` is the opaque `Env.hostOf`, and `path.join` is the opaque `Env.join`.
- Reading, piping and delivering bytes are not modelled. That includes stream errors (such
  as a missing placeholder image), back-pressure and closing handles.
- async scheduling is not modelled. An unawaited rejection is only recorded as the outcome
  `Unhandled`.
- Logging (src/app.js:34-36, 58, 93, 140) is not modelled.
- Node's case-insensitive response header names and the order of headers are not modelled.
  Repeated request headers that Node joins into one value are taken as one string.
- `Patterns.IsNaN` covers only what the range captures can hold: digit strings, which are
  never NaN. Any other string counts as NaN. That is wrong for signs, blanks, decimals and
  hex, none of which a `\d*` capture contains.
