/**
 * The part of Node's `http.ServerResponse` the proxy uses: a status code
 * that starts at 200, a header map that `setHeader` overwrites by name, and
 * a body that `end` sends once. A header value of `None` stands for a
 * JavaScript `null`, which `setHeader` accepts and later writes as the
 * text `null`.
 */
module Http {
  import opened Results
  import opened Upstream

  /** A body sent as text or as raw bytes. */
  datatype Body = Chars(text: string) | Bytes(data: seq<byte>)

  type HeaderMap = map<string, Option<string>>

  class Response {
    var statusCode: int
    var headers: HeaderMap
    var body: Option<Body>

    /** A response before the handler touches it. */
    predicate Fresh()
      reads this
    {
      statusCode == 200 && headers == map[] && body == None
    }

    /** Headers can still change: nothing has been sent. */
    predicate Open()
      reads this
    {
      body.None?
    }

    constructor ()
      ensures Fresh()
    {
      statusCode := 200;
      headers := map[];
      body := None;
    }

    /** `setHeader`: replaces any earlier value of the same name. */
    method SetHeader(name: string, value: Option<string>)
      requires Open()
      modifies this
      ensures headers == old(headers)[name := value]
      ensures statusCode == old(statusCode) && body == old(body)
    {
      headers := headers[name := value];
    }

    /** `writeHead`: sets the status; headers set earlier are kept. */
    method WriteHead(status: int)
      requires Open()
      modifies this
      ensures statusCode == status
      ensures headers == old(headers) && body == old(body)
    {
      statusCode := status;
    }

    /** `end`: sends the body; nothing can change afterwards. */
    method End(b: Body)
      requires Open()
      modifies this
      ensures body == Some(b) && !Open()
      ensures statusCode == old(statusCode) && headers == old(headers)
    {
      body := Some(b);
    }
  }
}
