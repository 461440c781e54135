/** Properties of the pipeline, stated about the reference definition `Serve` (which the
    handler `Server.Request` is proved to follow). */
module Properties {
  import opened Wrappers
  import opened Platform
  import opened Patterns
  import opened Responses
  import opened Decisions

  /** The file stage gets past the conditional GET and the range stage, to the point where
      the media type and the coding are set. */
  predicate ReachesCoding(env: Env, req: HttpRequest, path: string, stat: Stat) {
    var mediaType := env.mimeType(path);
    && !(mediaType in CacheTypes && NotModified(req, ValidatorsOf(env, stat)))
    && !(mediaType in RangeTypes && NotSteal(env, req).None? && RangeUnmatched(req))
  }

  // ---- content coding ----

  /** gzip wins over deflate whenever both appear as words. */
  lemma GzipPreferred(acceptEncoding: string)
    requires HasWord(acceptEncoding, "gzip") && HasWord(acceptEncoding, "deflate")
    ensures SelectCoding(Some(acceptEncoding)) == Some(Gzip)
  {
  }

  /** `gzip` inside a longer word is not the gzip coding. */
  lemma {:induction false} NotAWholeWord()
    ensures SelectCoding(Some("x-gzip")) == Some(Gzip)
    ensures SelectCoding(Some("gzipped")).None?
  {
    assert WordAt("x-gzip", "gzip", 2);
    forall i ensures !WordAt("gzipped", "gzip", i) {
      if i == 0 {
        assert IsWordChar("gzipped"[4]);
      } else if 0 < i <= 3 {
        assert "gzipped"[i..i + 4][0] == "gzipped"[i] != 'g';
      }
    }
    forall i ensures !WordAt("gzipped", "deflate", i) {
      if i == 0 {
        assert "gzipped"[i..i + 7][0] == 'g';
      }
    }
  }

  /** Once a file gets that far, `Content-Encoding` names the selected coding and the
      (possibly substituted or ranged) stream is piped through it; with no coding the
      header is absent and the handler throws before anything is sent. */
  lemma FileCoding(env: Env, req: HttpRequest, path: string, stat: Stat)
    requires ReachesCoding(env, req, path, stat)
    ensures var h := ServeFile(env, req, path, stat, Unsent);
      match SelectCoding(AcceptEncoding(req))
      case Some(c) =>
        && h.outcome == Settled
        && h.reply.headers[ContentEncoding] == CodingName(c)
        && h.reply.body.Piped? && h.reply.body.coding == c
      case None =>
        && h.outcome == Unhandled(ReadStreamNotCallable)
        && ContentEncoding !in h.reply.headers
        && h.reply.body == Pending
  {
  }

  // ---- dispatch ----

  /** A path that does not stat is answered 404 with body `not found` and no headers. */
  lemma MissingIsNotFound(env: Env, fs: FileSystem, req: HttpRequest)
    requires env.join([env.root, req.pathname]) !in fs.stats
    ensures Serve(env, fs, req) == Handled(Reply(404, map[], Ended(NotFoundText)), Settled)
  {
  }

  /** A directory whose listing cannot be read is answered the same way. */
  lemma UnreadableDirectoryIsNotFound(env: Env, fs: FileSystem, req: HttpRequest)
    requires var filepath := env.join([env.root, req.pathname]);
      && filepath in fs.stats && fs.stats[filepath].isDirectory
      && IndexPath(env, filepath) !in fs.stats && filepath !in fs.entries
    ensures Serve(env, fs, req) == Handled(Reply(404, map[], Ended(NotFoundText)), Settled)
  {
  }

  /** A path that stats as a file is served as that file with its own metadata. */
  lemma FileDispatch(env: Env, fs: FileSystem, req: HttpRequest)
    requires var filepath := env.join([env.root, req.pathname]);
      filepath in fs.stats && !fs.stats[filepath].isDirectory
    ensures var filepath := env.join([env.root, req.pathname]);
      Serve(env, fs, req) == ServeFile(env, req, filepath, fs.stats[filepath], Unsent)
  {
  }

  /** A directory whose `index.html` stats (whatever its kind) is served as that index file,
      but with the directory's metadata: validators, size and range come from the directory. */
  lemma IndexServedWithDirectoryStat(env: Env, fs: FileSystem, req: HttpRequest)
    requires var filepath := env.join([env.root, req.pathname]);
      && filepath in fs.stats && fs.stats[filepath].isDirectory
      && IndexPath(env, filepath) in fs.stats
    ensures var filepath := env.join([env.root, req.pathname]);
      Serve(env, fs, req) == ServeFile(env, req, IndexPath(env, filepath), fs.stats[filepath], Unsent)
  {
  }

  /** A directory without an index is listed: `text/html`, entries in `readdir` order, the
      page compressed by the coding rule, and never a caching or range header. */
  lemma DirectoryListing(env: Env, fs: FileSystem, req: HttpRequest)
    requires var filepath := env.join([env.root, req.pathname]);
      && filepath in fs.stats && fs.stats[filepath].isDirectory
      && IndexPath(env, filepath) !in fs.stats && filepath in fs.entries
    ensures var filepath := env.join([env.root, req.pathname]);
      var h := Serve(env, fs, req);
      var html := env.render(req.pathname, Listing(env, req.pathname, fs.entries[filepath]));
      && h.outcome == Settled
      && h.reply.headers[ContentType] == "text/html"
      && CacheControl !in h.reply.headers && Expires !in h.reply.headers
      && LastModified !in h.reply.headers && ETag !in h.reply.headers
      && AcceptRange !in h.reply.headers
      && match SelectCoding(AcceptEncoding(req))
         case None => h.reply == Reply(200, map[ContentType := "text/html"], Ended(html))
         case Some(c) =>
           && h.reply.headers[ContentEncoding] == CodingName(c)
           && h.reply.body == (if html != "" then Ended(env.compress(c, html)) else Ended(NotFoundText))
           && h.reply.status == (if html != "" then 200 else 404)
  {
  }

  // ---- caching ----

  /** Equal change time and size give equal validators, whatever the path or kind. */
  lemma ValidatorsDeterministic(env: Env, s1: Stat, s2: Stat)
    requires s1.ctime == s2.ctime && s1.size == s2.size
    ensures ValidatorsOf(env, s1) == ValidatorsOf(env, s2)
  {
  }

  /** Different sizes give different ETag inputs: the size text is `String(size)`. */
  lemma SizeTextInjective(a: nat, b: nat)
    requires DecimalString(a) == DecimalString(b)
    ensures a == b
  {
  }

  /** For a cacheable type the answer is 304 exactly when the conditional GET succeeds; a
      304 has an empty body and carries `Cache-Control` and `Expires` but no validators. */
  lemma ConditionalGet(env: Env, req: HttpRequest, path: string, stat: Stat)
    requires env.mimeType(path) in CacheTypes
    ensures var h := ServeFile(env, req, path, stat, Unsent);
      h.reply.status == 304 <==> NotModified(req, ValidatorsOf(env, stat))
    ensures var h := ServeFile(env, req, path, stat, Unsent);
      h.reply.status == 304 ==>
        h == Handled(Reply(304, WithExpiry(env, map[]), Ended("")), Settled)
  {
  }

  /** A matching `If-None-Match` alone is enough, whatever `If-Modified-Since` says. */
  lemma EntityTagMatchIsNotModified(env: Env, req: HttpRequest, path: string, stat: Stat)
    requires env.mimeType(path) in CacheTypes
    requires Header(req, "if-none-match") == Some(ValidatorsOf(env, stat).etag)
    requires ValidatorsOf(env, stat).etag != ""
    ensures ServeFile(env, req, path, stat, Unsent).reply.status == 304
  {
  }

  /** A cacheable type that is not answered 304 carries all four caching headers. */
  lemma CacheHeadersOnFullResponse(env: Env, req: HttpRequest, path: string, stat: Stat)
    requires env.mimeType(path) in CacheTypes && !NotModified(req, ValidatorsOf(env, stat))
    ensures var h := ServeFile(env, req, path, stat, Unsent).reply;
      var v := ValidatorsOf(env, stat);
      && h.status == 200
      && h.headers[CacheControl] == "private,max-age=60"
      && h.headers[Expires] == env.httpDate(env.now + 60 * 1000)
      && h.headers[LastModified] == v.lastModified
      && h.headers[ETag] == v.etag
  {
  }

  /** Any other type never gets any of them. */
  lemma NoCacheHeadersOtherwise(env: Env, req: HttpRequest, path: string, stat: Stat)
    requires env.mimeType(path) !in CacheTypes
    ensures var h := ServeFile(env, req, path, stat, Unsent).reply;
      && CacheControl !in h.headers && Expires !in h.headers
      && LastModified !in h.headers && ETag !in h.headers
      && h.status == 200
  {
  }

  // ---- hotlink guard and ranges ----

  /** A substituted placeholder is typed `image/png`, announces no ranges and is the only
      stream ever piped: the requested file's bytes are never sent. */
  lemma HotlinkSubstitution(env: Env, req: HttpRequest, path: string, stat: Stat)
    requires env.mimeType(path) in RangeTypes && !NotModified(req, ValidatorsOf(env, stat))
    requires NotSteal(env, req).Some?
    ensures var h := ServeFile(env, req, path, stat, Unsent);
      && h.reply.headers[ContentType] == "image/png"
      && AcceptRange !in h.reply.headers
      && (h.reply.body == Pending || h.reply.body.source == WholeFile(PlaceholderPath(env)))
  {
  }

  /** Without `referer` or `refer`, or with the allowed host, nothing is substituted. */
  lemma NoSubstitutionWithoutForeignReferrer(env: Env, req: HttpRequest)
    ensures !Truthy(Header(req, "referer")) && !Truthy(Header(req, "refer")) ==> NotSteal(env, req).None?
    ensures Truthy(Header(req, "referer")) && env.hostOf(req.headers["referer"]) == Some(HostDomain) ==>
      NotSteal(env, req).None?
  {
  }

  /** The guard runs only for range types: any other type keeps its own media type and
      file, announces no ranges, whatever the referrer says. */
  lemma GuardOnlyForRangeTypes(env: Env, req: HttpRequest, path: string, stat: Stat)
    requires env.mimeType(path) !in RangeTypes
    requires !(env.mimeType(path) in CacheTypes && NotModified(req, ValidatorsOf(env, stat)))
    ensures var h := ServeFile(env, req, path, stat, Unsent);
      && h.reply.headers[ContentType] == env.mimeType(path)
      && AcceptRange !in h.reply.headers
      && (h.reply.body == Pending || h.reply.body.source == WholeFile(path))
  {
  }

  /** A range type that is not substituted always announces `Accept-Range: bytes`; a
      non-empty `Range` the pattern does not match makes the handler throw before any
      `Content-Type` is set; otherwise the stream spans the default bounds 0 and the size,
      whatever bounds were asked for. */
  lemma RangeStage(env: Env, req: HttpRequest, path: string, stat: Stat)
    requires env.mimeType(path) in RangeTypes && !NotModified(req, ValidatorsOf(env, stat))
    requires NotSteal(env, req).None?
    ensures var h := ServeFile(env, req, path, stat, Unsent);
      && h.reply.headers[AcceptRange] == "bytes"
      && (RangeUnmatched(req) ==>
            h.outcome == Unhandled(NullRangeMatch) && h.reply.body == Pending && ContentType !in h.reply.headers)
      && (!RangeUnmatched(req) ==>
            h.reply.body == Pending || h.reply.body.source == Slice(path, Offset(0), Offset(stat.size)))
  {
  }

  /** `Range: bytes=10-20` matches, and the file is still opened from 0 to its size. */
  lemma {:induction false} RequestedBoundsIgnored(env: Env, req: HttpRequest, path: string, stat: Stat)
    requires env.mimeType(path) in RangeTypes && !NotModified(req, ValidatorsOf(env, stat))
    requires NotSteal(env, req).None? && Header(req, "range") == Some("bytes=10-20")
    requires SelectCoding(AcceptEncoding(req)).Some?
    ensures ServeFile(env, req, path, stat, Unsent).reply.body.source == Slice(path, Offset(0), Offset(stat.size))
  {
    var s := "bytes=10-20";
    assert DigitRunEnd(s, 6) == 8 by {
      assert DigitRunEnd(s, 8) == 8;
    }
    assert RangeAt(s, 0);
  }

  /** A malformed `Range` header makes the handler throw. */
  lemma {:induction false} MalformedRangeThrows(env: Env, req: HttpRequest, path: string, stat: Stat)
    requires env.mimeType(path) in RangeTypes && !NotModified(req, ValidatorsOf(env, stat))
    requires NotSteal(env, req).None? && Header(req, "range") == Some("items=1-2")
    ensures ServeFile(env, req, path, stat, Unsent).outcome == Unhandled(NullRangeMatch)
  {
    var s := "items=1-2";
    forall i ensures !RangeAt(s, i) {
      if 0 <= i && i + 6 <= |s| {
        assert s[i..i + 6][0] == s[i] != 'b';
      }
    }
  }

  // ---- whole-pipeline invariants ----

  /** A 304 always has an empty body. */
  lemma NotModifiedHasEmptyBody(env: Env, fs: FileSystem, req: HttpRequest)
    ensures Serve(env, fs, req).reply.status == 304 ==> Serve(env, fs, req).reply.body == Ended("")
  {
  }

  /** A failure inside the file stage is never turned into a 404: the response keeps
      status 200 and is never ended. */
  lemma FileStageFailuresStayUnanswered(env: Env, fs: FileSystem, req: HttpRequest)
    ensures Serve(env, fs, req).outcome.Unhandled? ==>
      Serve(env, fs, req).reply.status == 200 && Serve(env, fs, req).reply.body == Pending
  {
  }
}
