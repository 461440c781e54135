/** The request handler of the static server, step by step on a mutable response, each
    method proved to leave exactly the state the reference definition describes. */
module Server {
  import opened Wrappers
  import opened Platform
  import opened Patterns
  import opened Responses
  import opened Decisions

  /** `request(req, res)`: stat the path under the root; a directory is answered by its
      `index.html` if that stats (served with the directory's own stat), else by a listing;
      anything else is served as a file. Stat, readdir and `res.end` failures are caught and
      answered 404; a rejection of `sendFile` is not awaited, so it is not. */
  method Request(env: Env, fs: FileSystem, req: HttpRequest, res: Response) returns (outcome: Outcome)
    requires res.Snapshot() == Unsent
    modifies res
    ensures Handled(res.Snapshot(), outcome) == Serve(env, fs, req)
  {
    var filepath := env.join([env.root, req.pathname]);
    outcome := Settled;
    var caught := false;
    if filepath !in fs.stats {
      caught := true;
    } else {
      var stat := fs.stats[filepath];
      if stat.isDirectory {
        var indexFilepath := IndexPath(env, filepath);
        if indexFilepath in fs.stats {
          outcome := SendFile(env, req, res, indexFilepath, stat);
          return;
        }
        if filepath !in fs.entries {
          caught := true;
        } else {
          var files := Listing(env, req.pathname, fs.entries[filepath]);
          var html := env.render(req.pathname, files);
          res.SetHeader(ContentType, "text/html");
          var streamInfo := Gzip(env, req, res, Some(html));
          match streamInfo
          case None => res.End(html);
          case Some(EncodedBuffer(_, bytes)) => res.End(bytes);
          case Some(EncoderStream(_)) => caught := true;
        }
      } else {
        outcome := SendFile(env, req, res, filepath, stat);
      }
    }
    if caught {
      SendError(res, 404);
    }
  }

  /** What `gzip()` resolves to: a compressed buffer when it was given non-empty data,
      a zlib transform stream otherwise. */
  datatype Encoded = EncodedBuffer(coding: Coding, bytes: string) | EncoderStream(coding: Coding)

  /** `gzip(req, res, data)`: chooses the coding, sets `Content-Encoding` when there is one,
      and compresses `data` or hands back a transform stream. */
  method Gzip(env: Env, req: HttpRequest, res: Response, data: Option<string>) returns (streamInfo: Option<Encoded>)
    modifies res
    ensures streamInfo.Some? <==> SelectCoding(AcceptEncoding(req)).Some?
    ensures streamInfo.Some? ==>
      var c := SelectCoding(AcceptEncoding(req)).value;
      && streamInfo.value.coding == c
      && res.headers == old(res.headers)[ContentEncoding := CodingName(c)]
      && streamInfo.value == Encode(env, c, data)
    ensures streamInfo.None? ==> res.headers == old(res.headers)
    ensures res.statusCode == old(res.statusCode) && res.body == old(res.body)
  {
    var encoding := AcceptEncoding(req);
    var codingType: Option<Coding> := None;
    streamInfo := None;
    if encoding.Some? && ContainsWord(encoding.value, "gzip") {
      streamInfo := Some(Encode(env, Coding.Gzip, data));
      codingType := Some(Coding.Gzip);
    } else if encoding.Some? && ContainsWord(encoding.value, "deflate") {
      streamInfo := Some(Encode(env, Coding.Deflate, data));
      codingType := Some(Coding.Deflate);
    }
    if codingType.Some? {
      res.SetHeader(ContentEncoding, CodingName(codingType.value));
    }
  }

  /** `data ? await zlib.<coding>(data) : zlib.create<Coding>()`. */
  function Encode(env: Env, c: Coding, data: Option<string>): Encoded {
    if Truthy(data) then EncodedBuffer(c, env.compress(c, data.value)) else EncoderStream(c)
  }

  /** `sendFile(req, res, filepath, stat)`. */
  method SendFile(env: Env, req: HttpRequest, res: Response, filepath: string, stat: Stat) returns (outcome: Outcome)
    modifies res
    ensures Handled(res.Snapshot(), outcome) == ServeFile(env, req, filepath, stat, old(res.Snapshot()))
  {
    var fileType := env.mimeType(filepath);
    if fileType in CacheTypes {
      var cache := ToCache(env, req, res, stat);
      if !cache {
        return Settled;
      }
    }
    var isSteal := if fileType in RangeTypes then NotSteal(env, req) else None;
    var loadType := if isSteal.Some? then Some("image/png") else None;
    var readStream: Source;
    if isSteal.Some? {
      readStream := isSteal.value;
    } else if fileType in RangeTypes {
      var ranged := Range(req, res, filepath, stat);
      if ranged.Failure? {
        return Unhandled(ranged.error);
      }
      readStream := ranged.value;
    } else {
      readStream := WholeFile(filepath);
    }
    res.SetHeader(ContentType, if loadType.Some? then loadType.value else env.mimeType(filepath));
    var streamInfo := Gzip(env, req, res, None);
    if streamInfo.Some? {
      res.Pipe(readStream, streamInfo.value.coding);
      return Settled;
    }
    return Unhandled(ReadStreamNotCallable);
  }

  /** `range(req, res, filepath, stat)`: announces byte ranges and opens the file with
      `start` 0 and `end` the size. The guards `isNaN(capture)` are inverted, and a `\d*`
      capture is never NaN, so the requested bounds are never used; a non-empty `Range`
      the pattern does not match throws. */
  method Range(req: HttpRequest, res: Response, filepath: string, stat: Stat) returns (stream: Result<Source, Fault>)
    modifies res
    ensures res.headers == old(res.headers)[AcceptRange := "bytes"]
    ensures res.statusCode == old(res.statusCode) && res.body == old(res.body)
    ensures stream.Failure? <==> RangeUnmatched(req)
    ensures stream.Failure? ==> stream.error == NullRangeMatch
    ensures stream.Success? ==> stream.value == Slice(filepath, Offset(0), Offset(stat.size))
  {
    res.SetHeader(AcceptRange, "bytes");
    var range := Header(req, "range");
    var start, end := Offset(0), Offset(stat.size);
    if Truthy(range) {
      var result := MatchRange(range.value);
      if result.None? {
        return Failure(NullRangeMatch);
      }
      var captures := result.value;
      start := if IsNaN(captures.0) then Text(captures.0) else start;
      end := if IsNaN(captures.1) then Text(captures.1) else end;
    }
    return Success(Slice(filepath, start, end));
  }

  /** `toCache(req, res, filepath, stat)`: sets the forced-caching headers, then answers
      304 with an empty body when the conditional GET succeeds (the branch testing both
      validators at once adds nothing to the one testing either), else sets the validators. */
  method ToCache(env: Env, req: HttpRequest, res: Response, stat: Stat) returns (cache: bool)
    modifies res
    ensures cache <==> !NotModified(req, ValidatorsOf(env, stat))
    ensures res.headers ==
      if cache then WithValidators(ValidatorsOf(env, stat), WithExpiry(env, old(res.headers)))
      else WithExpiry(env, old(res.headers))
    ensures res.statusCode == if cache then old(res.statusCode) else 304
    ensures res.body == if cache then old(res.body) else Ended("")
  {
    res.SetHeader(CacheControl, "private,max-age=60");
    res.SetHeader(Expires, env.httpDate(env.now + 60 * 1000));
    var ifModifiedSince := Header(req, "if-modified-since");
    var lastModified := env.httpDate(stat.ctime);
    var ifNoneMatch := Header(req, "if-none-match");
    var eTag := env.sha1Hex(env.httpDate(stat.ctime) + DecimalString(stat.size));
    ghost var v := ValidatorsOf(env, stat);
    assert v == Validators(lastModified, eTag);
    if Truthy(ifModifiedSince) || Truthy(ifNoneMatch) {
      if ifNoneMatch == Some(eTag) && Some(lastModified) == ifModifiedSince {
        assert NotModified(req, v);
        res.statusCode := 304;
        res.End("");
        return false;
      }
      if (Truthy(ifModifiedSince) && Some(lastModified) == ifModifiedSince) || (Truthy(ifNoneMatch) && ifNoneMatch == Some(eTag)) {
        res.statusCode := 304;
        res.End("");
        return false;
      }
    }
    assert !NotModified(req, v);
    res.SetHeader(LastModified, lastModified);
    res.SetHeader(ETag, eTag);
    return true;
  }

  /** `sendError(req, res, flag)`: only 404 is handled. */
  method SendError(res: Response, flag: int)
    modifies res
    ensures flag == 404 ==> res.Snapshot() == NotFound(old(res.Snapshot()))
    ensures flag != 404 ==> res.Snapshot() == old(res.Snapshot())
  {
    if flag == 404 {
      res.statusCode := 404;
      res.End(NotFoundText);
    }
  }
}
