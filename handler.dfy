/**
 * The request handler and the three ways it ends a response: `notFound`,
 * `serverError` and `sendBody`. `Respond` says, as a value, what the client
 * receives for a request; `Handle` does it step by step on a `Response`.
 *
 * Calls the model cannot see are parameters: `fetch` (a rejection is an
 * `Err` carrying the error's text), `decode` and `encode` (iconv-lite; a
 * failure to decode, such as an unknown charset, is an `Err`), the clock
 * reading `now`, the configured timestamp `time`, and the pathname that
 * `new URL(requestUrl)` extracts (`None` when that constructor throws).
 */
module Handler {
  import opened Results
  import opened Upstream
  import opened Http
  import opened Dates
  import opened Resolver
  import opened Rewriter
  import opened Classifier
  import opened Translation

  const NotFoundText := ProxyName + ": Not Found"

  function ServerErrorText(e: string): string {
    ProxyName + ": Server Error\n\n" + e
  }

  /** The charset a textual body is decoded with: the archive's guess, else `utf8`. */
  function BodyCharset(up: FetchResponse): (c: string)
    ensures c != ""
    ensures Truthy(Get(up.headers, "x-archive-guessed-charset")) ==> Some(c) == Get(up.headers, "x-archive-guessed-charset")
    ensures !Truthy(Get(up.headers, "x-archive-guessed-charset")) ==> c == "utf8"
  {
    var guessed := Get(up.headers, "x-archive-guessed-charset");
    if Truthy(guessed) then guessed.value else "utf8"
  }

  /** What the client receives. */
  datatype Reply = Reply(status: int, headers: HeaderMap, body: Body)

  /**
   * `sendBody` after `setHeaders` produced `headers`: a failure to read or
   * decode the body becomes a server error that keeps those headers; a
   * non-textual body is sent as it came with the default status; a textual
   * one is decoded, filtered and encoded again.
   */
  function SentBody(up: FetchResponse, headers: HeaderMap,
                    decode: (seq<byte>, string) -> Result<string>,
                    encode: string -> seq<byte>): (r: Reply)
    ensures r.headers == headers
    ensures r.status == 200 || r == Reply(500, headers, r.body)
    ensures r.status == 200 <==> r.body.Bytes?
    ensures r.status != 200 ==> exists e :: r.body == Chars(ServerErrorText(e))
    ensures up.body.Ok? && !IsFetchResText(up) ==> r == Reply(200, headers, Bytes(up.body.value))
    ensures r.status == 200 && IsFetchResText(up) ==> exists src :: r.body == Bytes(encode(FilterBody(src)))
  {
    match up.body
    case Err(e) => Reply(500, headers, Chars(ServerErrorText(e)))
    case Ok(bytes) =>
      if !IsFetchResText(up) then Reply(200, headers, Bytes(bytes))
      else
        match decode(bytes, BodyCharset(up))
        case Err(e) => Reply(500, headers, Chars(ServerErrorText(e)))
        case Ok(src) => Reply(200, headers, Bytes(encode(FilterBody(src))))
  }

  /**
   * The response to one request, or `None` when the request URL cannot be
   * parsed: that exception is thrown before any promise exists, so no
   * handler ever writes a response. Every reply has one of three statuses,
   * and only a 200 carries the upstream bytes, unchanged or filtered.
   */
  function Respond(requestUrl: string, pathname: Option<string>, time: string,
                   fetch: string -> Result<FetchResponse>, now: DateFields,
                   decode: (seq<byte>, string) -> Result<string>,
                   encode: string -> seq<byte>): (r: Option<Reply>)
    ensures r.None? <==> pathname.None?
    ensures r.Some? ==> r.value.status in {200, 404, 500}
    ensures r.Some? ==> (r.value.status == 200 <==> r.value.body.Bytes?)
  {
    if pathname.None? then None
    else
      match fetch(ArcUrl(requestUrl, pathname.value, time))
      case Err(e) => Some(Reply(500, map[], Chars(ServerErrorText(e))))
      case Ok(up) =>
        if IsFetchResTs404(up) then Some(Reply(404, map[], Chars(NotFoundText)))
        else Some(SentBody(up, Translated(map[], up, requestUrl, FormatDate(now)), decode, encode))
  }

  /** `notFound`: status 404 and a fixed text; the headers set so far are kept. */
  method NotFound(res: Response)
    requires res.Open()
    modifies res
    ensures res.statusCode == 404 && res.body == Some(Chars(NotFoundText))
    ensures res.headers == old(res.headers)
  {
    res.WriteHead(404);
    res.End(Chars(NotFoundText));
  }

  /** `serverError`: status 500 and the error's text; the headers set so far are kept. */
  method ServerError(res: Response, e: string)
    requires res.Open()
    modifies res
    ensures res.statusCode == 500 && res.body == Some(Chars(ServerErrorText(e)))
    ensures res.headers == old(res.headers)
  {
    res.WriteHead(500);
    res.End(Chars(ServerErrorText(e)));
  }

  /**
   * `sendBody`. A failure is returned instead of thrown, with the response
   * still open, for the caller's `catch` to turn into a server error.
   */
  method SendBody(up: FetchResponse, res: Response,
                  decode: (seq<byte>, string) -> Result<string>,
                  encode: string -> seq<byte>) returns (failure: Option<string>)
    requires res.Open()
    modifies res
    ensures res.headers == old(res.headers)
    ensures var r := SentBody(up, old(res.headers), decode, encode);
      if failure.Some? then
        res.Open() && res.statusCode == old(res.statusCode) && r == Reply(500, res.headers, Chars(ServerErrorText(failure.value)))
      else
        res.statusCode == old(res.statusCode) && r.status == 200 && res.body == Some(r.body)
  {
    if up.body.Err? {
      return Some(up.body.error);
    }
    var body := up.body.value;
    if !IsFetchResText(up) {
      res.End(Bytes(body));
      return None;
    }
    var bodyCharset := BodyCharset(up);
    var src := decode(body, bodyCharset);
    if src.Err? {
      return Some(src.error);
    }
    var filtered := FilterBody(src.value);
    res.End(Bytes(encode(filtered)));
    return None;
  }

  /**
   * The handler given to `http.createServer`, run on a response nobody has
   * touched yet. It leaves the response as `Respond` describes, or untouched
   * when `Respond` says nothing is written.
   */
  method Handle(requestUrl: string, pathname: Option<string>, time: string,
                fetch: string -> Result<FetchResponse>, now: DateFields,
                decode: (seq<byte>, string) -> Result<string>,
                encode: string -> seq<byte>, res: Response)
    requires res.Fresh()
    modifies res
    ensures var r := Respond(requestUrl, pathname, time, fetch, now, decode, encode);
      if r.None? then res.Fresh()
      else res.statusCode == r.value.status && res.headers == r.value.headers && res.body == Some(r.value.body)
  {
    if pathname.None? {
      return;
    }
    var fetched := fetch(ArcUrl(requestUrl, pathname.value, time));
    if fetched.Err? {
      ServerError(res, fetched.error);
      return;
    }
    var up := fetched.value;
    if IsFetchResTs404(up) {
      NotFound(res);
      return;
    }
    SetHeaders(up, requestUrl, now, res);
    var failure := SendBody(up, res, decode, encode);
    if failure.Some? {
      ServerError(res, failure.value);
    }
  }

  // ---------------------------------------------------------------------------
  // Properties of the response a request receives
  // ---------------------------------------------------------------------------

  /** A snapshot the archive marks as missing is a 404 with no headers, whatever its status and body. */
  lemma MissingSnapshotIsNotFound(requestUrl: string, path: string, time: string,
                                  fetch: string -> Result<FetchResponse>, now: DateFields,
                                  decode: (seq<byte>, string) -> Result<string>,
                                  encode: string -> seq<byte>)
    requires fetch(ArcUrl(requestUrl, path, time)).Ok?
    requires Values(fetch(ArcUrl(requestUrl, path, time)).value.headers, "x-ts") == ["404"]
    ensures Respond(requestUrl, Some(path), time, fetch, now, decode, encode)
      == Some(Reply(404, map[], Chars(NotFoundText)))
  {
  }

  /** A non-textual body is passed through byte for byte with the translated headers. */
  lemma BinaryPassThrough(requestUrl: string, path: string, time: string,
                          fetch: string -> Result<FetchResponse>, now: DateFields,
                          decode: (seq<byte>, string) -> Result<string>,
                          encode: string -> seq<byte>)
    requires fetch(ArcUrl(requestUrl, path, time)).Ok?
    requires var up := fetch(ArcUrl(requestUrl, path, time)).value;
      !IsFetchResTs404(up) && up.body.Ok? && !IsFetchResText(up)
    ensures var up := fetch(ArcUrl(requestUrl, path, time)).value;
      var r := Respond(requestUrl, Some(path), time, fetch, now, decode, encode);
      r.Some? && r.value.status == 200 && r.value.body == Bytes(up.body.value)
      && "content-type" in r.value.headers && r.value.headers["content-type"] == Get(up.headers, "content-type")
  {
  }

  /**
   * A textual page that decodes to text without archive artefacts is sent
   * back as its own re-encoding, under status 200.
   */
  lemma CleanPageUnchanged(requestUrl: string, path: string, time: string,
                           fetch: string -> Result<FetchResponse>, now: DateFields,
                           decode: (seq<byte>, string) -> Result<string>,
                           encode: string -> seq<byte>)
    requires fetch(ArcUrl(requestUrl, path, time)).Ok?
    requires var up := fetch(ArcUrl(requestUrl, path, time)).value;
      !IsFetchResTs404(up) && up.body.Ok? && IsFetchResText(up)
      && decode(up.body.value, BodyCharset(up)).Ok? && IsClean(decode(up.body.value, BodyCharset(up)).value)
    ensures var up := fetch(ArcUrl(requestUrl, path, time)).value;
      var r := Respond(requestUrl, Some(path), time, fetch, now, decode, encode);
      r.Some? && r.value.status == 200 && r.value.body == Bytes(encode(decode(up.body.value, BodyCharset(up)).value))
  {
    var up := fetch(ArcUrl(requestUrl, path, time)).value;
    assert FilterBody(decode(up.body.value, BodyCharset(up)).value) == decode(up.body.value, BodyCharset(up)).value;
  }

  /**
   * Once the upstream response is accepted, the diagnostic headers are
   * present on every outcome, including a failure to read or decode the body.
   */
  lemma DiagnosticsOnEveryOutcome(requestUrl: string, path: string, time: string,
                                  fetch: string -> Result<FetchResponse>, now: DateFields,
                                  decode: (seq<byte>, string) -> Result<string>,
                                  encode: string -> seq<byte>)
    requires fetch(ArcUrl(requestUrl, path, time)).Ok?
    requires !IsFetchResTs404(fetch(ArcUrl(requestUrl, path, time)).value)
    ensures var up := fetch(ArcUrl(requestUrl, path, time)).value;
      var r := Respond(requestUrl, Some(path), time, fetch, now, decode, encode);
      r.Some?
      && ArchiveUrlHeader in r.value.headers && r.value.headers[ArchiveUrlHeader] == Some(up.url)
      && RequestUrlHeader in r.value.headers && r.value.headers[RequestUrlHeader] == Some(requestUrl)
      && RequestTimeHeader in r.value.headers && r.value.headers[RequestTimeHeader] == Some(FormatDate(now))
  {
    var up := fetch(ArcUrl(requestUrl, path, time)).value;
    var h := Translated(map[], up, requestUrl, FormatDate(now));
    assert Respond(requestUrl, Some(path), time, fetch, now, decode, encode) == Some(SentBody(up, h, decode, encode));
  }

  /**
   * A textual page is decoded with its charset, filtered and encoded again,
   * and goes out with status 200 and the translated headers.
   */
  lemma TextPageIsFiltered(requestUrl: string, path: string, time: string,
                           fetch: string -> Result<FetchResponse>, now: DateFields,
                           decode: (seq<byte>, string) -> Result<string>,
                           encode: string -> seq<byte>, src: string)
    requires fetch(ArcUrl(requestUrl, path, time)).Ok?
    requires var up := fetch(ArcUrl(requestUrl, path, time)).value;
      !IsFetchResTs404(up) && up.body.Ok? && IsFetchResText(up)
      && decode(up.body.value, BodyCharset(up)) == Ok(src)
    ensures var up := fetch(ArcUrl(requestUrl, path, time)).value;
      Respond(requestUrl, Some(path), time, fetch, now, decode, encode)
      == Some(Reply(200, Translated(map[], up, requestUrl, FormatDate(now)), Bytes(encode(FilterBody(src)))))
  {
  }

  /** A rejected fetch is a server error carrying the rejection, with no headers. */
  lemma FetchFailureIsServerError(requestUrl: string, path: string, time: string,
                                  fetch: string -> Result<FetchResponse>, now: DateFields,
                                  decode: (seq<byte>, string) -> Result<string>,
                                  encode: string -> seq<byte>, e: string)
    requires fetch(ArcUrl(requestUrl, path, time)) == Err(e)
    ensures Respond(requestUrl, Some(path), time, fetch, now, decode, encode)
      == Some(Reply(500, map[], Chars(ServerErrorText(e))))
  {
  }

  /** A body that cannot be read is a server error that keeps the translated headers. */
  lemma BodyReadFailureIsServerError(requestUrl: string, path: string, time: string,
                                     fetch: string -> Result<FetchResponse>, now: DateFields,
                                     decode: (seq<byte>, string) -> Result<string>,
                                     encode: string -> seq<byte>, e: string)
    requires fetch(ArcUrl(requestUrl, path, time)).Ok?
    requires var up := fetch(ArcUrl(requestUrl, path, time)).value;
      !IsFetchResTs404(up) && up.body == Err(e)
    ensures var up := fetch(ArcUrl(requestUrl, path, time)).value;
      Respond(requestUrl, Some(path), time, fetch, now, decode, encode)
      == Some(Reply(500, Translated(map[], up, requestUrl, FormatDate(now)), Chars(ServerErrorText(e))))
  {
  }

  /** A textual body that cannot be decoded is a server error that keeps the translated headers. */
  lemma DecodeFailureIsServerError(requestUrl: string, path: string, time: string,
                                   fetch: string -> Result<FetchResponse>, now: DateFields,
                                   decode: (seq<byte>, string) -> Result<string>,
                                   encode: string -> seq<byte>, e: string)
    requires fetch(ArcUrl(requestUrl, path, time)).Ok?
    requires var up := fetch(ArcUrl(requestUrl, path, time)).value;
      !IsFetchResTs404(up) && up.body.Ok? && IsFetchResText(up)
      && decode(up.body.value, BodyCharset(up)) == Err(e)
    ensures var up := fetch(ArcUrl(requestUrl, path, time)).value;
      Respond(requestUrl, Some(path), time, fetch, now, decode, encode)
      == Some(Reply(500, Translated(map[], up, requestUrl, FormatDate(now)), Chars(ServerErrorText(e))))
  {
  }

  /** A request URL that does not parse gets no response at all. */
  lemma UnparsableUrlUnanswered(requestUrl: string, time: string,
                                fetch: string -> Result<FetchResponse>, now: DateFields,
                                decode: (seq<byte>, string) -> Result<string>,
                                encode: string -> seq<byte>)
    ensures Respond(requestUrl, None, time, fetch, now, decode, encode).None?
  {
  }
}
