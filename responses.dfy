/** The `http.ServerResponse` the pipeline writes to, reduced to what it changes: the
    status code, the header map and what becomes of the body. */
module Responses {
  import opened Platform

  /** A `start`/`end` option of `fs.createReadStream`. JavaScript would store the capture
      text itself if the `isNaN` guard of the range stage held, hence `Text`. */
  datatype Bound = Offset(n: int) | Text(s: string)

  /** A file read stream: the whole file, or one opened with `start` and `end`. */
  datatype Source = WholeFile(path: string) | Slice(path: string, start: Bound, end: Bound)

  /** `Pending`: `end` was never called and nothing is piped in. `Ended`: `res.end(text)`.
      `Piped`: the source is piped through a zlib transform of the coding into `res`. */
  datatype Body = Pending | Ended(content: string) | Piped(source: Source, coding: Coding)

  /** The observable state of a response. */
  datatype Reply = Reply(status: int, headers: map<string, string>, body: Body)

  /** The response Node hands to a request listener. */
  const Unsent := Reply(200, map[], Pending)

  class Response {
    var statusCode: int
    var headers: map<string, string>
    var body: Body

    constructor ()
      ensures Snapshot() == Unsent
    {
      statusCode, headers, body := 200, map[], Pending;
    }

    function Snapshot(): Reply
      reads this
    {
      Reply(statusCode, headers, body)
    }

    /** `res.setHeader(name, value)`: replaces any earlier value of that header. */
    method SetHeader(name: string, value: string)
      modifies this
      ensures headers == old(headers)[name := value]
      ensures statusCode == old(statusCode) && body == old(body)
    {
      headers := headers[name := value];
    }

    /** `res.end(content)` with a string or buffer. */
    method End(content: string)
      modifies this
      ensures body == Ended(content)
      ensures statusCode == old(statusCode) && headers == old(headers)
    {
      body := Ended(content);
    }

    /** `source.pipe(zlibTransform).pipe(res)`. */
    method Pipe(source: Source, coding: Coding)
      modifies this
      ensures body == Piped(source, coding)
      ensures statusCode == old(statusCode) && headers == old(headers)
    {
      body := Piped(source, coding);
    }
  }
}
