/** What the request pipeline receives from outside: the configuration and library
    collaborators it treats as opaque, the filesystem it stats, and the request. */
module Platform {
  import opened Wrappers

  /** The two content codings the server can apply (zlib's gzip and deflate). */
  datatype Coding = Gzip | Deflate

  /** The `Content-Encoding` token for a coding. */
  function CodingName(c: Coding): string {
    match c
    case Gzip => "gzip"
    case Deflate => "deflate"
  }

  /** Metadata `fs.stat` reports: kind, change time in milliseconds, size in bytes. */
  datatype Stat = Stat(isDirectory: bool, ctime: int, size: nat)

  /** The served filesystem: `fs.stat` succeeds exactly for the paths in `stats`, and
      `fs.readdir` succeeds exactly for the paths in `entries`, giving names in order. */
  datatype FileSystem = FileSystem(stats: map<string, Stat>, entries: map<string, seq<string>>)

  /** One line of a directory listing, as handed to the template. */
  datatype Entry = Entry(name: string, url: string)

  /** The request's pathname as `Url.parse` gives it (not percent-decoded) and the request
      headers, keyed by lower-case name. */
  datatype HttpRequest = HttpRequest(pathname: string, headers: map<string, string>)

  /** The server's configuration and the library calls it makes, taken as given:
      `path.join`, `mime.getType`, the host part of `Url.parse`, `Date#toGMTString`
      (the same text as `toUTCString`), SHA-1 as lower-case hex, the listing template
      and zlib's one-shot compression. `now` is `Date.now()` when the request is served. */
  datatype Env = Env(
    root: string,
    cwd: string,
    now: int,
    join: seq<string> -> string,
    mimeType: string -> string,
    hostOf: string -> Option<string>,
    httpDate: int -> string,
    sha1Hex: string -> string,
    render: (string, seq<Entry>) -> string,
    compress: (Coding, string) -> string)

  /** `req.headers[name]`: `None` plays JavaScript's `undefined`. */
  function Header(req: HttpRequest, name: string): (h: Option<string>)
    ensures h.Some? <==> name in req.headers
    ensures h.Some? ==> h.value == req.headers[name]
  {
    if name in req.headers then Some(req.headers[name]) else None
  }

  /** JavaScript truthiness of a header value: present and not the empty string. */
  predicate Truthy(h: Option<string>) {
    h.Some? && h.value != ""
  }
}
